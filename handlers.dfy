/** `src/io/handlers.io.ts`: how a replica reacts to its peers' messages. A
    peer write or delete is applied, answered with the local winner, or queued
    until the events it depends on have arrived; the causal catch-up requests
    are answered only by a replica whose clock has seen the requester's, and
    acted on only by one whose clock has not seen the sender's. Broadcasts and
    local events are returned as emissions; the replica's own address and the
    current time are parameters. */
module Handlers {
  import opened Wrappers
  import opened Interfaces
  import opened Clocks
  import opened ClockServices
  import opened Kvs
  import opened Queues
  import opened Views
  import opened Util

  /** What a replica does with a peer write or delete. */
  datatype PeerStep =
    | ApplyOp          // merge the sender's clock and apply the operation
    | WriteBackLocal   // keep the local record and send it back (writes only)
    | Ignore           // do nothing (deletes only)
    | Enqueue          // push the operation onto the queue

  /** The branch `onKvsWrite` takes. Equal clocks mean concurrent writes:
      the sender's write is applied when there is no local record or when
      `maxIP(sender, address)` is the sender. */
  function WriteStep(local: Clock, received: Clock, sender: string, address: string, hasLocal: bool): (step: PeerStep)
    ensures step != Ignore
    ensures step == Enqueue <==> local != received && !NextEventFrom(local, sender, received)
    ensures step == WriteBackLocal ==> local == received && hasLocal
  {
    if local == received then
      (if !hasLocal || MaxIP(sender, address) == sender then ApplyOp else WriteBackLocal)
    else if NextEventFrom(local, sender, received) then ApplyOp
    else Enqueue
  }

  /** The branch `onKvsDelete` takes: as for a write, except that with equal
      clocks and no local record nothing happens, and a losing sender is not
      answered. */
  function DeleteStep(local: Clock, received: Clock, sender: string, address: string, hasLocal: bool): (step: PeerStep)
    ensures step != WriteBackLocal
    ensures step == Enqueue <==> local != received && !NextEventFrom(local, sender, received)
    ensures step == Ignore ==> local == received
  {
    if local == received then
      (if hasLocal && MaxIP(sender, address) == sender then ApplyOp else Ignore)
    else if NextEventFrom(local, sender, received) then ApplyOp
    else Enqueue
  }

  /** When the clocks are equal and the addresses tie (no part of the first
      four decides), the sender wins, whether or not a local record exists. */
  lemma TieGoesToSender(c: Clock, sender: string, address: string, hasLocal: bool)
    requires Tied(ParsedParts(sender), ParsedParts(address))
    ensures WriteStep(c, c, sender, address, hasLocal) == ApplyOp
    ensures hasLocal ==> DeleteStep(c, c, sender, address, hasLocal) == ApplyOp
  {
    MaxIPTieGoesToFirst(sender, address);
  }

  /** Two replicas `a` and `b` with equal clocks that write the same key
      concurrently, each holding a record for it: when their addresses are
      ordered, exactly one of them applies the other's write (the one whose
      peer is the larger address); the other answers with its own value. */
  lemma ConcurrentWritesOneApplies(a: string, b: string, c: Clock)
    requires !Tied(ParsedParts(a), ParsedParts(b))
    ensures (WriteStep(c, c, b, a, true) == ApplyOp) != (WriteStep(c, c, a, b, true) == ApplyOp)
    ensures WriteStep(c, c, b, a, true) == WriteBackLocal <==> WriteStep(c, c, a, b, true) == ApplyOp
  {
    MaxIPAntisymmetric(a, b);
    var k :| 0 <= k < 4 && Decides(ParsedParts(a), ParsedParts(b), k);
    assert a != b;
  }

  /** With tied addresses (the same four parsed parts, such as one host on
      two ports) each replica applies the other's write, so the two records
      are exchanged rather than reconciled. */
  lemma ConcurrentWritesTiedBothApply(a: string, b: string, c: Clock)
    requires Tied(ParsedParts(a), ParsedParts(b))
    ensures WriteStep(c, c, b, a, true) == ApplyOp && WriteStep(c, c, a, b, true) == ApplyOp
  {
    var x, y := ParsedParts(a), ParsedParts(b);
    assert Tied(y, x) by {
      forall i | 0 <= i < 4 ensures !Decides(y, x, i) {
        assert !Decides(x, y, i);
      }
    }
    MaxIPTieGoesToFirst(a, b);
    MaxIPTieGoesToFirst(b, a);
  }

  /** A concurrent write with no local record is applied, but a concurrent
      delete with no local record does nothing. */
  lemma DeleteNeedsLocalRecord(c: Clock, sender: string, address: string)
    ensures WriteStep(c, c, sender, address, false) == ApplyOp
    ensures DeleteStep(c, c, sender, address, false) == Ignore
  {
  }

  /** A queued write is applied by the first queue pass that examines it
      once the local clock has reached the event just before it. */
  lemma EnqueuedWriteAppliesLater(vc: Option<ClockPairs>, key: string, val: string, sender: string, later: Clock)
    requires NextEventFrom(later, sender, ParsedClock(vc))
    ensures VerdictOf(QueueEntry(vc, WriteAction(key, Some(val)), sender), later) == Apply
  {
  }

  /** `onKvsWrite`. */
  method OnKvsWrite(clocks: ClockService, kvs: KvsService, queue: QueueService, address: string, now: int,
                    clock: Option<ClockPairs>, key: string, val: string, sender: string)
    returns (out: seq<Emission>)
    modifies clocks.vectorClock, kvs, queue
    ensures var step := WriteStep(old(clocks.vectorClock.clock), ParsedClock(clock), sender, address, key in old(kvs.kvs));
            && (step == ApplyOp ==>
                  clocks.vectorClock.clock == Merge(old(clocks.vectorClock.clock), ParsedClock(clock))
                  && kvs.kvs == old(kvs.kvs)[key := ValWithCausalContext(Some(val), CausalContext(now, None))]
                  && queue.queue == old(queue.queue) && out == [])
            && (step == WriteBackLocal ==>
                  clocks.vectorClock.clock == old(clocks.vectorClock.clock) && kvs.kvs == old(kvs.kvs)
                  && queue.queue == old(queue.queue)
                  && out == [KvsWriteBack(key, old(kvs.kvs)[key], address, old(clocks.vectorClock.clock))])
            && (step == Enqueue ==>
                  clocks.vectorClock.clock == old(clocks.vectorClock.clock) && kvs.kvs == old(kvs.kvs)
                  && queue.queue == old(queue.queue) + [QueueEntry(clock, WriteAction(key, Some(val)), sender)]
                  && out == [])
    ensures kvs.proxyReqCount == old(kvs.proxyReqCount)
  {
    var receivedVC := clocks.ParseReceivedClock(clock);
    var localVC := clocks.vectorClock;
    var equal := Equals(localVC.clock, receivedVC.clock);
    var localVal := kvs.GetKv(key);
    var next := CompareClocks(localVC.clock, sender, receivedVC.clock);
    out := [];
    if equal || next {
      if equal {
        if localVal.None? || MaxIP(sender, address) == sender {
          localVC.UpdateClock(receivedVC);
          var _, _ := kvs.CreateOrUpdateKv(key, Some(val), None, None, now);
        } else {
          out := [KvsWriteBack(key, localVal.value, address, localVC.clock)];
        }
      } else {
        localVC.UpdateClock(receivedVC);
        var _, _ := kvs.CreateOrUpdateKv(key, Some(val), None, None, now);
      }
    } else {
      queue.Push(QueueEntry(clock, WriteAction(key, Some(val)), sender));
    }
  }

  /** `onKvsDelete`. `deleteKv` answers an object, never `undefined`, so the
      clock is merged after every delete it performs. */
  method OnKvsDelete(clocks: ClockService, kvs: KvsService, queue: QueueService, address: string, now: int,
                     clock: Option<ClockPairs>, key: string, sender: string)
    modifies clocks.vectorClock, kvs, queue
    ensures var step := DeleteStep(old(clocks.vectorClock.clock), ParsedClock(clock), sender, address, key in old(kvs.kvs));
            && (step == ApplyOp ==>
                  clocks.vectorClock.clock == Merge(old(clocks.vectorClock.clock), ParsedClock(clock))
                  && kvs.kvs == (if key in old(kvs.kvs) then old(kvs.kvs)[key := ValWithCausalContext(None, CausalContext(now, None))]
                                 else old(kvs.kvs))
                  && queue.queue == old(queue.queue))
            && (step == Ignore ==>
                  clocks.vectorClock.clock == old(clocks.vectorClock.clock) && kvs.kvs == old(kvs.kvs)
                  && queue.queue == old(queue.queue))
            && (step == Enqueue ==>
                  clocks.vectorClock.clock == old(clocks.vectorClock.clock) && kvs.kvs == old(kvs.kvs)
                  && queue.queue == old(queue.queue) + [QueueEntry(clock, DeleteAction(key), sender)])
    ensures kvs.proxyReqCount == old(kvs.proxyReqCount)
  {
    var receivedVC := clocks.ParseReceivedClock(clock);
    var localVC := clocks.vectorClock;
    var equal := Equals(localVC.clock, receivedVC.clock);
    var localVal := kvs.GetKv(key);
    var next := CompareClocks(localVC.clock, sender, receivedVC.clock);
    if equal || next {
      if equal {
        if localVal.Some? && MaxIP(sender, address) == sender {
          var _, _ := kvs.DeleteKv(key, None, None, now);
          localVC.UpdateClock(receivedVC);
        }
      } else {
        var _, _ := kvs.DeleteKv(key, None, None, now);
        localVC.UpdateClock(receivedVC);
      }
    } else {
      queue.Push(QueueEntry(clock, DeleteAction(key), sender));
    }
  }

  /** `onCausalGetKey`: answered, with the local record and clock, exactly
      when the local clock has seen the requester's. */
  method OnCausalGetKey(clocks: ClockService, kvs: KvsService, clock: Option<ClockPairs>, key: string, sender: string)
    returns (out: seq<Emission>)
    ensures Covers(clocks.vectorClock.clock, Some(ParsedClock(clock))) ==>
              out == [CausalUpdateKey(key in kvs.kvs, key, if key in kvs.kvs then Some(kvs.kvs[key]) else None,
                                      sender, clocks.vectorClock.clock)]
    ensures !Covers(clocks.vectorClock.clock, Some(ParsedClock(clock))) ==> out == []
  {
    var receivedVC := clocks.ParseReceivedClock(clock);
    var localVC := clocks.vectorClock;
    var ahead := ValidateClock(localVC.clock, Some(receivedVC.clock));
    out := [];
    if ahead {
      var value := kvs.GetKv(key);
      out := [CausalUpdateKey(value.Some?, key, value, sender, localVC.clock)];
    }
  }

  /** `onCausalUpdateKey`: acted on exactly when the local clock has not
      seen the sender's; then the clock is merged, the key written (or
      deleted when the sender had no record) and the key announced as
      consistent. */
  method OnCausalUpdateKey(clocks: ClockService, kvs: KvsService, now: int,
                           clock: Option<ClockPairs>, key: string, value: Option<string>, found: bool)
    returns (out: seq<Emission>)
    modifies clocks.vectorClock, kvs
    ensures old(Covers(clocks.vectorClock.clock, Some(ParsedClock(clock)))) ==>
              clocks.vectorClock.clock == old(clocks.vectorClock.clock) && kvs.kvs == old(kvs.kvs) && out == []
    ensures !old(Covers(clocks.vectorClock.clock, Some(ParsedClock(clock)))) ==>
              clocks.vectorClock.clock == Merge(old(clocks.vectorClock.clock), ParsedClock(clock))
              && kvs.kvs == (if found then old(kvs.kvs)[key := ValWithCausalContext(value, CausalContext(now, None))]
                             else if key in old(kvs.kvs) then old(kvs.kvs)[key := ValWithCausalContext(None, CausalContext(now, None))]
                             else old(kvs.kvs))
              && out == [KeyConsistent(key, value, found)]
    ensures kvs.proxyReqCount == old(kvs.proxyReqCount)
  {
    var receivedVC := clocks.ParseReceivedClock(clock);
    var localVC := clocks.vectorClock;
    var ahead := ValidateClock(localVC.clock, Some(receivedVC.clock));
    out := [];
    if !ahead {
      localVC.UpdateClock(receivedVC);
      if found {
        var _, _ := kvs.CreateOrUpdateKv(key, value, None, None, now);
      } else {
        var _, _ := kvs.DeleteKv(key, None, None, now);
      }
      out := [KeyConsistent(key, value, found)];
    }
  }

  /** `onCausalGetKvs`: answered exactly when the local clock has seen the
      requester's. `Array.from` of the store, a plain object, is empty, so
      the answer carries no records. */
  method OnCausalGetKvs(clocks: ClockService, clock: Option<ClockPairs>, sender: string)
    returns (out: seq<Emission>)
    ensures Covers(clocks.vectorClock.clock, Some(ParsedClock(clock))) ==>
              out == [CausalUpdateKvs([], sender, clocks.vectorClock.clock)]
    ensures !Covers(clocks.vectorClock.clock, Some(ParsedClock(clock))) ==> out == []
  {
    var receivedVC := clocks.ParseReceivedClock(clock);
    var localVC := clocks.vectorClock;
    var ahead := ValidateClock(localVC.clock, Some(receivedVC.clock));
    out := [];
    if ahead {
      out := [CausalUpdateKvs([], sender, localVC.clock)];
    }
  }

  /** `onCausalUpdateKvs`: acted on exactly when the local clock has not
      seen the sender's; then the clock is merged, the received records
      overwrite the local ones, and the live keys are announced. */
  method OnCausalUpdateKvs(clocks: ClockService, kvs: KvsService, clock: Option<ClockPairs>, receivedKvs: KvStore)
    returns (out: seq<Emission>)
    modifies clocks.vectorClock, kvs
    ensures old(Covers(clocks.vectorClock.clock, Some(ParsedClock(clock)))) ==>
              clocks.vectorClock.clock == old(clocks.vectorClock.clock) && kvs.kvs == old(kvs.kvs) && out == []
    ensures !old(Covers(clocks.vectorClock.clock, Some(ParsedClock(clock)))) ==>
              clocks.vectorClock.clock == Merge(old(clocks.vectorClock.clock), ParsedClock(clock))
              && kvs.kvs == old(kvs.kvs) + receivedKvs
              && |out| == 1 && out[0].KvsConsistent?
              && out[0].count == |LiveKeys(kvs.kvs)|
              && forall k :: k in out[0].keys <==> k in LiveKeys(kvs.kvs)
    ensures kvs.proxyReqCount == old(kvs.proxyReqCount)
  {
    var receivedVC := clocks.ParseReceivedClock(clock);
    var localVC := clocks.vectorClock;
    var ahead := ValidateClock(localVC.clock, Some(receivedVC.clock));
    out := [];
    if !ahead {
      localVC.UpdateClock(receivedVC);
      kvs.UpdateKvs(receivedKvs);
      var count, keys := kvs.GetAllKeys();
      out := [KvsConsistent(count, keys)];
    }
  }

  /** `onReplicationConverge`: as the store update above, without the
      announcement. */
  method OnReplicationConverge(clocks: ClockService, kvs: KvsService, clock: Option<ClockPairs>, receivedKvs: KvStore)
    modifies clocks.vectorClock, kvs
    ensures old(Covers(clocks.vectorClock.clock, Some(ParsedClock(clock)))) ==>
              clocks.vectorClock.clock == old(clocks.vectorClock.clock) && kvs.kvs == old(kvs.kvs)
    ensures !old(Covers(clocks.vectorClock.clock, Some(ParsedClock(clock)))) ==>
              clocks.vectorClock.clock == Merge(old(clocks.vectorClock.clock), ParsedClock(clock))
              && kvs.kvs == old(kvs.kvs) + receivedKvs
    ensures kvs.proxyReqCount == old(kvs.proxyReqCount)
  {
    var localVC := clocks.vectorClock;
    var receivedVC := clocks.ParseReceivedClock(clock);
    var ahead := ValidateClock(localVC.clock, Some(receivedVC.clock));
    if !ahead {
      localVC.UpdateClock(receivedVC);
      kvs.UpdateKvs(receivedKvs);
    }
  }

  /** `onViewChangeKill`: a replica named in the list drops its store and
      view, then stops its hub if it runs one and disconnects otherwise;
      any other replica does nothing. */
  method OnViewChangeKill(views: ViewService, address: string, data: seq<string>, listening: bool)
    returns (out: seq<Emission>)
    modifies views, views.kvsService
    ensures address in data ==>
              views.kvsService.kvs == map[] && views.view == [] && views.shardIndex == -1
              && out == [if listening then ShutdownServer else DisconnectClient]
    ensures address !in data ==>
              views.kvsService.kvs == old(views.kvsService.kvs) && views.view == old(views.view)
              && views.shardIndex == old(views.shardIndex) && out == []
    ensures views.numShards == old(views.numShards)
  {
    out := [];
    if address in data {
      views.DeleteView();
      out := [if listening then ShutdownServer else DisconnectClient];
    }
  }

  /** `onViewChangeUpdate`: a replica named in the list rebuilds its view
      from it with its current shard count, its shard index becoming the
      shard of the last node listed; any other replica does nothing. With no
      shards the rebuild empties the view and throws. */
  method OnViewChangeUpdate(views: ViewService, address: string, data: seq<string>)
    returns (threw: bool)
    modifies views
    ensures address in data ==>
              (threw <==> views.numShards <= 0)
              && (views.numShards > 0 ==> views.view == PositionalView(data, views.numShards))
    ensures address in data && !threw ==> views.shardIndex == (|data| - 1) % views.numShards
    ensures address in data && threw ==> views.view == [] && (views.numShards < 0 ==> views.shardIndex == 0)
    ensures address !in data ==> !threw && views.view == old(views.view) && views.shardIndex == old(views.shardIndex)
    ensures views.numShards == old(views.numShards)
  {
    threw := false;
    if address in data {
      threw := views.UpdateView(data);
    }
  }

  /** After a view update that names it, a replica finds itself in the
      shard of its position in the list. */
  lemma UpdatedViewPlacesReplica(data: seq<string>, n: int, i: nat)
    requires n > 0 && i < |data|
    ensures data[i] in PositionalView(data, n)[i % n].nodes
  {
    NodePlacedByPosition(data, n, i);
  }
}
