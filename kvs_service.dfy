/** `src/services/kvs.service.ts`: the replica's causal store. Records carry a
    write timestamp and the dependencies the writer declared; a delete writes
    a tombstone and never removes a key. Reads and key listings decide locally
    whether the caller's required timestamps are met, and fall back on a
    remote answer that is passed in. Shard placement hashes a key with a
    polynomial hash reduced by JavaScript's truncating `%`. */
module Kvs {
  import opened Wrappers
  import opened JsSemantics
  import opened Interfaces

  /** The hash base and modulus: `p = 31`, `m = 1e9 + 9`. */
  const P: int := 31
  const M: int := 1_000_000_009

  /** `prev.val` when the key has a record, undefined otherwise (also for a
      tombstone). */
  function PrevVal(store: KvStore, key: string): Option<string>
  {
    if key in store then store[key].val else None
  }

  /** `this.kvs[k]?.causalContext.timestamp || 0`. */
  function LocalTimestamp(store: KvStore, k: string): int
  {
    if k in store then store[k].causalContext.timestamp else 0
  }

  /** The keys that still hold a value: tombstones are not listed. */
  function LiveKeys(store: KvStore): (live: set<string>)
    ensures live <= store.Keys
    ensures forall k :: k in live <==> k in store && store[k].val.Some?
  {
    set k | k in store && store[k].val.Some?
  }

  /** A read of `key` can be answered locally: there is a record and the
      caller requires no later timestamp for the key than the record's. */
  predicate LocallySatisfied(store: KvStore, key: string, received: CausalMetadata)
  {
    key in store && (key !in received || store[key].causalContext.timestamp >= received[key])
  }

  /** The keys the caller requires that are absent locally or stamped earlier
      than required. */
  function StaleKeys(store: KvStore, received: CausalMetadata): (stale: set<string>)
    ensures stale <= received.Keys
    ensures forall k :: k in stale <==> k in received && !LocallySatisfied(store, k, received)
  {
    set k | k in received && (k !in store || store[k].causalContext.timestamp < received[k])
  }

  /** The metadata `updateCausalMetadata` returns after reading `key` with
      context `cc`: the key at the record's timestamp, every other dependency
      the record declared at the larger of the declared and the required
      timestamp, and the caller's remaining entries as they came. `None` when
      the record declared no metadata: the source's `Object.entries` throws
      on it. */
  function ReadMetadata(key: string, cc: CausalContext, received: CausalMetadata): (r: Option<CausalMetadata>)
    ensures r.Some? <==> cc.causalMetadata.Some?
    ensures r.Some? ==> r.value.Keys == received.Keys + cc.causalMetadata.value.Keys + {key}
    ensures r.Some? ==> r.value[key] == cc.timestamp
    ensures r.Some? ==> forall k :: k in received && k != key ==> r.value[k] >= received[k]
    ensures r.Some? ==> forall k :: k in cc.causalMetadata.value && k != key ==> r.value[k] >= cc.causalMetadata.value[k]
    ensures r.Some? ==> forall k :: k in cc.causalMetadata.value && k != key ==>
              r.value[k] == cc.causalMetadata.value[k] || r.value[k] == (if k in received then received[k] else 0)
    ensures r.Some? ==> forall k :: k in cc.causalMetadata.value && k != key ==> r.value[k] >= (if k in received then received[k] else 0)
    ensures r.Some? ==> forall k :: k in received && k !in cc.causalMetadata.value && k != key ==> r.value[k] == received[k]
  {
    match cc.causalMetadata
    case None => None
    case Some(declared) =>
      Some(map k | k in received.Keys + declared.Keys + {key} ::
        if k == key then cc.timestamp
        else if k in declared then MathMax(declared[k], if k in received then received[k] else 0)
        else received[k])
  }

  /** The metadata `updateReceivedCausalMetadata` returns: the caller's keys,
      each raised to the local record's timestamp where that is later. */
  function ReceivedMetadataMerge(store: KvStore, received: CausalMetadata): (r: CausalMetadata)
    ensures r.Keys == received.Keys
    ensures forall k :: k in r ==> r[k] >= received[k] && r[k] >= LocalTimestamp(store, k)
    ensures forall k :: k in r ==> r[k] == received[k] || r[k] == LocalTimestamp(store, k)
  {
    map k | k in received :: MathMax(received[k], LocalTimestamp(store, k))
  }

  /** `hash_value` and `p_pow` after the loop has consumed `s`. Each step
      adds `(charCode - 98) * p_pow` and reduces with the truncating `%`, so
      the hash may be negative; `p_pow` never is. */
  function HashState(s: string): (st: (int, int))
    ensures -M < st.0 < M
    ensures 0 <= st.1 < M
  {
    if s == [] then (0, 1)
    else
      var prev := HashState(s[..|s| - 1]);
      (TruncRem(prev.0 + (s[|s| - 1] as int - 98) * prev.1, M), TruncRem(prev.1 * P, M))
  }

  /** The value `hashFunction` returns: the absolute value of the loop's
      hash, which always lies in `[0, m)`. */
  function Hash(s: string): (h: int)
    ensures 0 <= h < M
  {
    MathAbs(HashState(s).0)
  }

  /** The empty key hashes to 0. */
  lemma HashOfEmpty()
    ensures Hash("") == 0
  {
  }

  /** The remote answer to a read that could not be served locally (the
      replicas' consistent-value round trip, which is not modelled). */
  datatype RemoteRead =
    | ReadTimedOut                          // `success` false
    | ReadMissing                           // `success` true, `exists` false
    | ReadFound(record: ValWithCausalContext)

  /** What `readKv` returns; `ReadThrew` when `updateCausalMetadata` throws on
      a record without declared metadata. */
  datatype ReadOutcome =
    | ReadResult(success: bool, val: Option<string>, metadata: CausalMetadata)
    | ReadThrew

  /** What `retreiveAllKeys` returns. */
  datatype KeysOutcome =
    | KeysFound(count: nat, keys: seq<string>, metadata: CausalMetadata)
    | KeysFailed

  /** The store service. `kvs` is the key -> record map, `proxyReqCount` the
      id counter for proxied requests. */
  class KvsService {
    var kvs: KvStore
    var proxyReqCount: int

    /** The store starts as the store model's initial object and the counter
        at 0. */
    constructor(initial: KvStore)
      ensures kvs == initial && proxyReqCount == 0
    {
      kvs := initial;
      proxyReqCount := 0;
    }

    /** `createOrUpdateKv`: stores a fresh record stamped `now` with the given
        metadata, or `valWithContext` verbatim when one is given, and returns
        the previous value. Nothing else in the store changes. */
    method CreateOrUpdateKv(key: string, val: Option<string>, causalMetadata: Option<CausalMetadata>,
                            valWithContext: Option<ValWithCausalContext>, now: int)
      returns (prev: Option<string>, stored: ValWithCausalContext)
      modifies this
      ensures stored == if valWithContext.Some? then valWithContext.value
                        else ValWithCausalContext(val, CausalContext(now, causalMetadata))
      ensures prev == PrevVal(old(kvs), key)
      ensures kvs == old(kvs)[key := stored]
      ensures proxyReqCount == old(proxyReqCount)
    {
      stored := ValWithCausalContext(val, CausalContext(now, causalMetadata));
      if valWithContext.Some? {
        stored := valWithContext.value;
      }
      prev := None;
      if key in kvs {
        prev := kvs[key].val;
      }
      kvs := kvs[key := stored];
    }

    /** `deleteKv`: when the key has a record, replaces it by a tombstone
        stamped `now` (or `valWithContext` verbatim); an absent key is left
        absent. Returns the previous value. */
    method DeleteKv(key: string, causalMetadata: Option<CausalMetadata>,
                    valWithContext: Option<ValWithCausalContext>, now: int)
      returns (prev: Option<string>, stored: ValWithCausalContext)
      modifies this
      ensures stored == if valWithContext.Some? then valWithContext.value
                        else ValWithCausalContext(None, CausalContext(now, causalMetadata))
      ensures prev == PrevVal(old(kvs), key)
      ensures kvs == if key in old(kvs) then old(kvs)[key := stored] else old(kvs)
      ensures proxyReqCount == old(proxyReqCount)
    {
      stored := ValWithCausalContext(None, CausalContext(now, causalMetadata));
      if valWithContext.Some? {
        stored := valWithContext.value;
      }
      prev := None;
      if key in kvs {
        prev := kvs[key].val;
        kvs := kvs[key := stored];
      }
    }

    /** `getKv`: the record for the key, if any. */
    method GetKv(key: string) returns (r: Option<ValWithCausalContext>)
      ensures r.Some? <==> key in kvs
      ensures r.Some? ==> r.value == kvs[key]
    {
      r := if key in kvs then Some(kvs[key]) else None;
    }

    /** `getAllKeys`: every key that still holds a value, once each, and
        their number. */
    method GetAllKeys() returns (count: nat, keys: seq<string>)
      ensures count == |keys| == |LiveKeys(kvs)|
      ensures forall k :: k in keys <==> k in LiveKeys(kvs)
      ensures forall i, j :: 0 <= i < j < |keys| ==> keys[i] != keys[j]
    {
      keys := [];
      var rest := kvs.Keys;
      ghost var listed: set<string> := {};
      while rest != {}
        invariant rest <= kvs.Keys
        invariant listed == LiveKeys(kvs) - rest
        invariant forall k :: k in keys <==> k in listed
        invariant |keys| == |listed|
        invariant forall i, j :: 0 <= i < j < |keys| ==> keys[i] != keys[j]
        decreases rest
      {
        var k :| k in rest;
        if kvs[k].val.Some? {
          assert k !in listed;
          keys := keys + [k];
          listed := listed + {k};
        }
        rest := rest - {k};
      }
      count := |keys|;
    }

    /** `updateKvs`: a right-biased merge; incoming records overwrite, all
        other records stay. */
    method UpdateKvs(newKvs: KvStore)
      modifies this
      ensures kvs == old(kvs) + newKvs
      ensures forall k :: k in newKvs ==> kvs[k] == newKvs[k]
      ensures forall k :: k in old(kvs) && k !in newKvs ==> k in kvs && kvs[k] == old(kvs)[k]
      ensures proxyReqCount == old(proxyReqCount)
    {
      kvs := kvs + newKvs;
    }

    /** `clearKvs`: the store becomes empty. */
    method ClearKvs()
      modifies this
      ensures kvs == map[]
      ensures proxyReqCount == old(proxyReqCount)
    {
      kvs := map[];
    }

    /** `updateCausalMetadata`: the caller's metadata updated after reading
        `key` with context `cc`. Reads no state. */
    method UpdateCausalMetadata(key: string, cc: CausalContext, received: CausalMetadata)
      returns (r: Option<CausalMetadata>)
      ensures r == ReadMetadata(key, cc, received)
    {
      if cc.causalMetadata.None? {
        assert ReadMetadata(key, cc, received).None?;
        return None;
      }
      var declared := cc.causalMetadata.value;
      var metadata := received[key := cc.timestamp];
      var rest := declared.Keys;
      while rest != {}
        invariant rest <= declared.Keys
        invariant metadata.Keys == received.Keys + (declared.Keys - rest) + {key}
        invariant forall k :: k in metadata ==>
          metadata[k] == if k == key then cc.timestamp
                         else if k in declared.Keys - rest then MathMax(declared[k], if k in received then received[k] else 0)
                         else received[k]
        decreases rest
      {
        var k :| k in rest;
        if k != key {
          var receivedTimestamp := if k in received then received[k] else 0;
          metadata := metadata[k := MathMax(declared[k], receivedTimestamp)];
        }
        rest := rest - {k};
      }
      ghost var expected := ReadMetadata(key, cc, received).value;
      assert metadata.Keys == expected.Keys;
      assert forall k :: k in metadata ==> metadata[k] == expected[k];
      assert metadata == expected;
      r := Some(metadata);
    }

    /** `updateReceivedCausalMetadata`: the caller's metadata with each entry
        raised to the local record's timestamp. */
    method UpdateReceivedCausalMetadata(received: CausalMetadata) returns (r: CausalMetadata)
      ensures r == ReceivedMetadataMerge(kvs, received)
    {
      r := received;
      var rest := received.Keys;
      while rest != {}
        invariant rest <= received.Keys
        invariant r.Keys == received.Keys
        invariant forall k :: k in r ==>
          r[k] == if k in rest then received[k] else MathMax(received[k], LocalTimestamp(kvs, k))
        decreases rest
      {
        var k :| k in rest;
        var localTimestamp := if k in kvs then kvs[k].causalContext.timestamp else 0;
        r := r[k := MathMax(received[k], localTimestamp)];
        rest := rest - {k};
      }
    }

    /** `hashFunction`: the polynomial hash of the key. */
    method HashFunction(s: string) returns (h: int)
      ensures h == Hash(s)
      ensures 0 <= h < M
    {
      var hashValue := 0;
      var pPow := 1;
      var i := 0;
      while i < |s|
        invariant 0 <= i <= |s|
        invariant (hashValue, pPow) == HashState(s[..i])
      {
        assert s[..i + 1][..i] == s[..i];
        hashValue := TruncRem(hashValue + (s[i] as int - 98) * pPow, M);
        pPow := TruncRem(pPow * P, M);
        i := i + 1;
      }
      assert s[..i] == s;
      h := MathAbs(hashValue);
    }

    /** `lookUp`: the shard of a key, `hash % num_shards`; `None` (NaN) for
        zero shards. As the hash is never negative the shard lies in
        `[0, |num_shards|)`. */
    method LookUp(numShards: int, s: string) returns (shard: Option<int>)
      ensures shard.None? <==> numShards == 0
      ensures shard.Some? ==> shard.value == Hash(s) % MathAbs(numShards)
      ensures shard.Some? ==> 0 <= shard.value < MathAbs(numShards)
    {
      var h := HashFunction(s);
      if numShards == 0 {
        return None;
      }
      shard := Some(TruncRem(h, numShards));
    }

    /** `writeKv`: stores the value stamped `now` with the caller's metadata,
        answers the caller's metadata raised to the store's timestamps with
        the written key at `now`, and broadcasts the record when the socket
        layer runs. */
    method WriteKv(shardId: int, key: string, val: string, received: CausalMetadata,
                   ioRunning: bool, address: string, now: int)
      returns (prev: Option<string>, metadata: CausalMetadata, out: seq<Emission>)
      modifies this
      ensures kvs == old(kvs)[key := ValWithCausalContext(Some(val), CausalContext(now, Some(received)))]
      ensures prev == PrevVal(old(kvs), key)
      ensures metadata == ReceivedMetadataMerge(kvs, received)[key := now]
      ensures out == if ioRunning then [KvsWrite(key, kvs[key], address, shardId)] else []
      ensures proxyReqCount == old(proxyReqCount)
    {
      var stored;
      prev, stored := CreateOrUpdateKv(key, Some(val), Some(received), None, now);
      var updated := UpdateReceivedCausalMetadata(received);
      metadata := updated[key := stored.causalContext.timestamp];
      out := [];
      if ioRunning {
        out := [KvsWrite(key, stored, address, shardId)];
      }
    }

    /** `removeKv`: tombstones the key if it has a record, answers the
        caller's metadata raised to the store's timestamps, with the key at
        `now` only when the previous value was defined, and broadcasts the
        delete when the socket layer runs. */
    method RemoveKv(shardId: int, key: string, received: CausalMetadata,
                    ioRunning: bool, address: string, now: int)
      returns (prev: Option<string>, metadata: CausalMetadata, out: seq<Emission>)
      modifies this
      ensures kvs == if key in old(kvs) then old(kvs)[key := ValWithCausalContext(None, CausalContext(now, Some(received)))]
                     else old(kvs)
      ensures prev == PrevVal(old(kvs), key)
      ensures metadata == if prev.Some? then ReceivedMetadataMerge(kvs, received)[key := now]
                          else ReceivedMetadataMerge(kvs, received)
      ensures out == if ioRunning then [KvsDelete(key, CausalContext(now, Some(received)), address, shardId)] else []
      ensures proxyReqCount == old(proxyReqCount)
    {
      var stored;
      prev, stored := DeleteKv(key, Some(received), None, now);
      metadata := UpdateReceivedCausalMetadata(received);
      if prev.Some? {
        metadata := metadata[key := stored.causalContext.timestamp];
      }
      out := [];
      if ioRunning {
        out := [KvsDelete(key, stored.causalContext, address, shardId)];
      }
    }

    /** `readKv`. A locally satisfied read answers the stored value; otherwise,
        when the socket layer runs, the remote answer decides (a timeout
        fails, a found record is answered); otherwise a key with no value
        reads as absent and a stale value fails. */
    method ReadKv(key: string, received: CausalMetadata, ioRunning: bool, remote: RemoteRead)
      returns (outcome: ReadOutcome)
      ensures LocallySatisfied(kvs, key, received) ==>
        outcome == (var md := ReadMetadata(key, kvs[key].causalContext, received);
                    if md.Some? then ReadResult(true, kvs[key].val, md.value) else ReadThrew)
      ensures !LocallySatisfied(kvs, key, received) && ioRunning && remote.ReadTimedOut? ==>
        outcome == ReadResult(false, None, received)
      ensures !LocallySatisfied(kvs, key, received) && ioRunning && remote.ReadFound? ==>
        outcome == (var md := ReadMetadata(key, remote.record.causalContext, received);
                    if md.Some? then ReadResult(true, remote.record.val, md.value) else ReadThrew)
      ensures !LocallySatisfied(kvs, key, received) && (!ioRunning || remote.ReadMissing?) ==>
        outcome == ReadResult(PrevVal(kvs, key).None?, None, received)
    {
      var kv := GetKv(key);
      if kv.Some? {
        var cc := kv.value.causalContext;
        if key !in received || cc.timestamp >= received[key] {
          var md := UpdateCausalMetadata(key, cc, received);
          if md.None? {
            return ReadThrew;
          }
          return ReadResult(true, kv.value.val, md.value);
        }
      }
      if ioRunning {
        match remote {
          case ReadTimedOut =>
            return ReadResult(false, None, received);
          case ReadFound(record) =>
            var md := UpdateCausalMetadata(key, record.causalContext, received);
            if md.None? {
              return ReadThrew;
            }
            return ReadResult(true, record.val, md.value);
          case ReadMissing =>
        }
      }
      if kv.None? || kv.value.val.None? {
        outcome := ReadResult(true, None, received);
      } else {
        outcome := ReadResult(false, None, received);
      }
    }

    /** The `for (const key in receivedMetadata)` loop of `retreiveAllKeys`:
        the required keys that are absent locally or stamped too early. */
    method InconsistentKeys(received: CausalMetadata) returns (inconsistent: set<string>)
      ensures inconsistent == StaleKeys(kvs, received)
    {
      inconsistent := {};
      var rest := received.Keys;
      while rest != {}
        invariant rest <= received.Keys
        invariant inconsistent == StaleKeys(kvs, received) - rest
        decreases rest
      {
        var k :| k in rest;
        if k !in kvs || kvs[k].causalContext.timestamp < received[k] {
          inconsistent := inconsistent + {k};
        }
        rest := rest - {k};
      }
    }

    /** `retreiveAllKeys`: answered locally exactly when no required key is
        stale. Otherwise, with the socket layer running, the replica asks its
        peers for the stale keys and waits; the handlers that run during that
        wait leave the store as `afterWait`. The wait succeeds (`caughtUp`)
        once the number of distinct keys announced as consistent reaches the
        number of stale keys, whichever keys those are, so a success does not
        imply that the stale keys were refreshed. On success the listing is
        this replica's own live keys and the metadata is merged, both over
        the store as it is after the wait; when the wait times out, or
        without the socket layer, the request fails. */
    method RetrieveAllKeys(received: CausalMetadata, ioRunning: bool, caughtUp: bool, afterWait: KvStore)
      returns (outcome: KeysOutcome)
      modifies this
      ensures proxyReqCount == old(proxyReqCount)
      ensures kvs == if StaleKeys(old(kvs), received) != {} && ioRunning then afterWait else old(kvs)
      ensures StaleKeys(old(kvs), received) == {} || (ioRunning && caughtUp) <==> outcome.KeysFound?
      ensures outcome.KeysFound? ==>
        outcome.count == |LiveKeys(kvs)|
        && (forall k :: k in outcome.keys <==> k in LiveKeys(kvs))
        && outcome.metadata == ReceivedMetadataMerge(kvs, received)
    {
      var inconsistent := InconsistentKeys(received);
      if inconsistent != {} {
        if !ioRunning {
          return KeysFailed;
        }
        kvs := afterWait;
        if !caughtUp {
          return KeysFailed;
        }
      }
      var count, keys := GetAllKeys();
      var metadata := UpdateReceivedCausalMetadata(received);
      return KeysFound(count, keys, metadata);
    }

    /** The id step of `proxyRequest`: the counter advances and the new value
        is the request's id. */
    method NextProxyRequestId() returns (id: int)
      modifies this
      ensures proxyReqCount == old(proxyReqCount) + 1
      ensures id == proxyReqCount
      ensures kvs == old(kvs)
    {
      proxyReqCount := proxyReqCount + 1;
      id := proxyReqCount;
    }
  }

  /** A required key set is served locally exactly when every required key
      is locally satisfied. */
  lemma NoStaleKeysIffAllSatisfied(store: KvStore, received: CausalMetadata)
    ensures StaleKeys(store, received) == {} <==> forall k :: k in received ==> LocallySatisfied(store, k, received)
  {
    if StaleKeys(store, received) == {} {
      forall k | k in received ensures LocallySatisfied(store, k, received) {
        assert k !in StaleKeys(store, received);
      }
    } else {
      var k :| k in StaleKeys(store, received);
      assert !LocallySatisfied(store, k, received);
    }
  }

  /** When the merged metadata is sent back to this replica, a stored key it
      names is locally satisfied exactly when the local timestamp had already
      reached the caller's: the merge never lowers the caller's entry. */
  lemma ReceivedMergeIsSatisfiedLocally(store: KvStore, received: CausalMetadata, k: string)
    requires k in received && k in store
    ensures LocallySatisfied(store, k, ReceivedMetadataMerge(store, received)) ==
            (store[k].causalContext.timestamp >= received[k])
  {
  }

  /** Writing a value makes the key listed; deleting it unlists it but keeps
      its record. */
  lemma LiveKeysAfterWriteAndDelete(store: KvStore, key: string, v: string, cc: CausalContext)
    ensures LiveKeys(store[key := ValWithCausalContext(Some(v), cc)]) == LiveKeys(store) + {key}
    ensures key in store ==> LiveKeys(store[key := ValWithCausalContext(None, cc)]) == LiveKeys(store) - {key}
    ensures key in store ==> key in store[key := ValWithCausalContext(None, cc)]
  {
  }

  /** A tombstone written over a key is not undone by later deletes: the key
      stays in the store and keeps reading as absent. */
  lemma {:induction false} TombstonesPersist(store: KvStore, key: string, ccs: seq<CausalContext>)
    requires key in store
    ensures key in Tombstoned(store, key, ccs)
    ensures ccs != [] ==> Tombstoned(store, key, ccs)[key].val.None?
    ensures Tombstoned(store, key, ccs).Keys == store.Keys
  {
    if ccs != [] {
      TombstonesPersist(store, key, ccs[..|ccs| - 1]);
    }
  }

  /** The store after deleting `key` once per context in `ccs`, in order. */
  function Tombstoned(store: KvStore, key: string, ccs: seq<CausalContext>): KvStore
  {
    if ccs == [] then store
    else
      var before := Tombstoned(store, key, ccs[..|ccs| - 1]);
      if key in before then before[key := ValWithCausalContext(None, ccs[|ccs| - 1])] else before
  }
}
