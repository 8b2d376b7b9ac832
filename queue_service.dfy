/** `src/services/queue.service.ts`: the queue of peer operations that arrived
    before the events they depend on. `pop` walks the queue with an index,
    applies an entry that is the sender's next event, drops one the local
    clock has already seen, and removes either in place with `splice`; the
    index advances after a removal as well, so the entry that slides into the
    freed slot waits for the next pass. Each method runs as one step: the
    handlers that the source lets run at the `await` inside `resolve` (the
    queue's mutex does not guard the store or the clock) are not
    interleaved, and the one-second polling timer is not modelled. */
module Queues {
  import opened Wrappers
  import opened Interfaces
  import opened Clocks
  import opened ClockServices
  import opened Kvs

  /** The store after `resolve` has applied an entry's action. Peer
      operations carry no dependency metadata, and records are stamped with
      the time of the pass. */
  function Resolved(action: QueueAction, store: KvStore, now: int): (r: KvStore)
    ensures action.WriteAction? ==> r.Keys == store.Keys + {action.key}
    ensures action.DeleteAction? ==> r.Keys == store.Keys
    ensures action.KvsAction? ==> r.Keys == store.Keys + action.kvs.Keys
    ensures store.Keys <= r.Keys
    ensures !action.KvsAction? ==> forall k :: k in store && k != action.key ==> r[k] == store[k]
  {
    match action
    case WriteAction(key, val) => store[key := ValWithCausalContext(val, CausalContext(now, None))]
    case DeleteAction(key) =>
      if key in store then store[key := ValWithCausalContext(None, CausalContext(now, None))] else store
    case KvsAction(kvs) => store + kvs
  }

  /** What a pass does with an examined entry. */
  datatype Verdict = Apply | Drop | Keep

  /** `compareClocks(sender, vc)` first, then `validateClock(vc)`. */
  function VerdictOf(e: QueueEntry, clock: Clock): (v: Verdict)
    ensures v == Apply <==> NextEventFrom(clock, e.sender, ParsedClock(e.vc))
    ensures v == Drop <==> !NextEventFrom(clock, e.sender, ParsedClock(e.vc)) && Covers(clock, Some(ParsedClock(e.vc)))
  {
    var vc := ParsedClock(e.vc);
    if NextEventFrom(clock, e.sender, vc) then Apply
    else if Covers(clock, Some(vc)) then Drop
    else Keep
  }

  /** The clock and store once an entry has been examined: an applied entry
      has its action applied and its clock merged in; otherwise nothing
      changes. The clock never moves backwards. */
  function Examined(e: QueueEntry, clock: Clock, store: KvStore, now: int): (r: (Clock, KvStore))
    ensures VerdictOf(e, clock) != Apply ==> r == (clock, store)
    ensures VerdictOf(e, clock) == Apply ==> r.1 == Resolved(e.action, store, now)
    ensures Leq(clock, r.0)
  {
    if VerdictOf(e, clock) == Apply then
      var merged := Merge(clock, ParsedClock(e.vc));
      MergeIsLeastUpperBound(clock, ParsedClock(e.vc), merged);
      (merged, Resolved(e.action, store, now))
    else (clock, store)
  }

  /** The queue, the local clock and the store a pass leaves. */
  datatype PassResult = PassResult(queue: seq<QueueEntry>, clock: Clock, store: KvStore)

  /** The same pass read over the original entries: an entry that follows a
      removed one is kept without being examined (`skip`); every other entry
      is examined against the clock as it stands at that point. */
  function Sweep(entries: seq<QueueEntry>, skip: bool, clock: Clock, store: KvStore, now: int): PassResult
    decreases |entries|
  {
    if entries == [] then PassResult([], clock, store)
    else if skip || VerdictOf(entries[0], clock) == Keep then
      var r := Sweep(entries[1..], false, clock, store, now);
      r.(queue := [entries[0]] + r.queue)
    else
      var next := Examined(entries[0], clock, store, now);
      Sweep(entries[1..], true, next.0, next.1, now)
  }

  /** `a` is `b` with some entries removed, the rest in their order. */
  predicate Subsequence(a: seq<QueueEntry>, b: seq<QueueEntry>)
    decreases |b|
  {
    if a == [] then true
    else if b == [] then false
    else (a[0] == b[0] && Subsequence(a[1..], b[1..])) || Subsequence(a, b[1..])
  }

  /** What a pass that has reached index `i` of the queue as it now stands
      goes on to leave: the first `i` entries stay, and the rest, none of
      them skipped, are swept with the current clock and store. Past the
      end, the pass is over. */
  function Resume(queue: seq<QueueEntry>, i: nat, clock: Clock, store: KvStore, now: int): PassResult
  {
    if i >= |queue| then PassResult(queue, clock, store)
    else
      var r := Sweep(queue[i..], false, clock, store, now);
      PassResult(queue[..i] + r.queue, r.clock, r.store)
  }

  /** At the start of a pass, what remains is the sweep of the whole queue. */
  lemma ResumeStart(queue: seq<QueueEntry>, clock: Clock, store: KvStore, now: int)
    ensures Resume(queue, 0, clock, store, now) == Sweep(queue, false, clock, store, now)
  {
    assert queue[0..] == queue;
    assert queue[..0] + Sweep(queue, false, clock, store, now).queue == Sweep(queue, false, clock, store, now).queue;
  }

  /** An entry examined and kept: the loop moves on over the same queue
      without changing what the pass leaves. */
  lemma ResumeKept(queue: seq<QueueEntry>, i: nat, clock: Clock, store: KvStore, now: int)
    requires i < |queue| && VerdictOf(queue[i], clock) == Keep
    ensures Resume(queue, i + 1, clock, store, now) == Resume(queue, i, clock, store, now)
  {
    var r := Sweep(queue[i + 1..], false, clock, store, now);
    SweepFirst(queue, i, false, clock, store, now);
    if i + 1 == |queue| {
      assert queue[i + 1..] == [];
    }
    PrefixThenHead(queue, i, r.queue);
  }

  /** Moving the entry at `i` from the head of the rest to the end of the
      prefix leaves the queue as it is. */
  lemma PrefixThenHead(queue: seq<QueueEntry>, i: nat, rest: seq<QueueEntry>)
    requires i < |queue|
    ensures queue[..i + 1] + rest == queue[..i] + ([queue[i]] + rest)
    ensures i + 1 == |queue| ==> queue[..i] + [queue[i]] == queue
  {
    assert queue[..i + 1] == queue[..i] + [queue[i]];
  }

  /** An entry examined and removed: the loop goes on at `i + 1` of the
      spliced queue, past the entry that slid into slot `i`, with the clock
      and store the entry leaves, without changing what the pass leaves. */
  lemma ResumeRemoved(queue: seq<QueueEntry>, i: nat, clock: Clock, store: KvStore, now: int)
    requires i < |queue| && VerdictOf(queue[i], clock) != Keep
    ensures var next := Examined(queue[i], clock, store, now);
            Resume(queue[..i] + queue[i + 1..], i + 1, next.0, next.1, now) == Resume(queue, i, clock, store, now)
  {
    var next := Examined(queue[i], clock, store, now);
    SweepFirst(queue, i, false, clock, store, now);
    if i + 1 == |queue| {
      assert queue[i + 1..] == [];
      assert queue[..i] + queue[i + 1..] == queue[..i];
    } else {
      SlidEntry(queue, i, next.0, next.1, now);
    }
  }

  /** One step of the sweep of `queue[i..]`. */
  lemma SweepFirst(queue: seq<QueueEntry>, i: nat, skip: bool, clock: Clock, store: KvStore, now: int)
    requires i < |queue|
    ensures var r := Sweep(queue[i + 1..], false, clock, store, now);
            skip || VerdictOf(queue[i], clock) == Keep ==>
              Sweep(queue[i..], skip, clock, store, now) == r.(queue := [queue[i]] + r.queue)
    ensures var next := Examined(queue[i], clock, store, now);
            !skip && VerdictOf(queue[i], clock) != Keep ==>
              Sweep(queue[i..], skip, clock, store, now) == Sweep(queue[i + 1..], true, next.0, next.1, now)
  {
    assert queue[i..][0] == queue[i];
    assert queue[i..][1..] == queue[i + 1..];
  }

  /** After the splice at `i`, the entry that was at `i + 1` is the last of
      the first `i + 1` entries, and is skipped by the sweep. */
  lemma SlidEntry(queue: seq<QueueEntry>, i: nat, clock: Clock, store: KvStore, now: int)
    requires i + 1 < |queue|
    ensures var spliced := queue[..i] + queue[i + 1..];
            var r := Sweep(queue[i + 1..], true, clock, store, now);
            Resume(spliced, i + 1, clock, store, now) == PassResult(queue[..i] + r.queue, r.clock, r.store)
  {
    var spliced := queue[..i] + queue[i + 1..];
    var slid := queue[i + 1];
    var later := Sweep(queue[i + 2..], false, clock, store, now);
    SweepFirst(queue, i + 1, true, clock, store, now);
    assert Sweep(queue[i + 1..], true, clock, store, now) == later.(queue := [slid] + later.queue);
    assert spliced[..i + 1] == queue[..i] + [slid];
    if i + 1 < |spliced| {
      assert spliced[i + 1..] == queue[i + 2..];
      assert Resume(spliced, i + 1, clock, store, now) == PassResult(spliced[..i + 1] + later.queue, later.clock, later.store);
    } else {
      assert queue[i + 2..] == [];
      assert later == PassResult([], clock, store);
      assert spliced == queue[..i] + [slid];
    }
    assert (queue[..i] + [slid]) + later.queue == queue[..i] + ([slid] + later.queue);
  }

  /** What stays in the queue is the original queue with entries removed,
      in their relative order. */
  lemma {:induction false} SweepKeepsOrder(entries: seq<QueueEntry>, skip: bool, clock: Clock, store: KvStore, now: int)
    ensures Subsequence(Sweep(entries, skip, clock, store, now).queue, entries)
    decreases |entries|
  {
    if entries != [] {
      var e := entries[0];
      var rest := entries[1..];
      if skip || VerdictOf(e, clock) == Keep {
        SweepKeepsOrder(rest, false, clock, store, now);
        var r := Sweep(rest, false, clock, store, now);
        assert ([e] + r.queue)[1..] == r.queue;
      } else {
        var next := Examined(e, clock, store, now);
        SweepKeepsOrder(rest, true, next.0, next.1, now);
        SubsequenceOfTail(Sweep(entries, skip, clock, store, now).queue, entries);
      }
    }
  }

  /** A subsequence of the tail is one of the whole. */
  lemma {:induction false} SubsequenceOfTail(a: seq<QueueEntry>, b: seq<QueueEntry>)
    requires b != [] && Subsequence(a, b[1..])
    ensures Subsequence(a, b)
  {
  }

  /** The local clock never moves backwards in a pass: each applied entry
      merges its clock in. */
  lemma {:induction false} SweepClockGrows(entries: seq<QueueEntry>, skip: bool, clock: Clock, store: KvStore, now: int)
    ensures Leq(clock, Sweep(entries, skip, clock, store, now).clock)
    decreases |entries|
  {
    if entries != [] {
      var e := entries[0];
      var rest := entries[1..];
      if skip || VerdictOf(e, clock) == Keep {
        SweepClockGrows(rest, false, clock, store, now);
      } else {
        var next := Examined(e, clock, store, now);
        SweepClockGrows(rest, true, next.0, next.1, now);
      }
    }
  }

  /** The state in which a pass that starts on `entries` with `skip`,
      `clock` and `store` reaches `entries[i]`: whether that entry is skipped,
      and the clock and store left by the removals before it. */
  function Arrival(entries: seq<QueueEntry>, i: nat, skip: bool, clock: Clock, store: KvStore, now: int): (bool, Clock, KvStore)
    requires i <= |entries|
  {
    if i == 0 then (skip, clock, store)
    else
      var before := Arrival(entries, i - 1, skip, clock, store, now);
      if before.0 || VerdictOf(entries[i - 1], before.1) == Keep then (false, before.1, before.2)
      else
        var next := Examined(entries[i - 1], before.1, before.2, now);
        (true, next.0, next.1)
  }

  /** A pass over `entries` ends as its remainder from `entries[i]` on does
      when started in the state the pass reaches that entry in: the same
      clock and store, and a queue that ends with the remainder's queue. */
  lemma {:induction false} SweepFromArrival(entries: seq<QueueEntry>, i: nat, skip: bool, clock: Clock, store: KvStore, now: int)
    requires i <= |entries|
    ensures var a := Arrival(entries, i, skip, clock, store, now);
            var r := Sweep(entries, skip, clock, store, now);
            var t := Sweep(entries[i..], a.0, a.1, a.2, now);
            EndsAs(r, t)
  {
    if i == 0 {
      assert entries[0..] == entries;
    } else {
      SweepFromArrival(entries, i - 1, skip, clock, store, now);
      ArrivalStep(entries, i, skip, clock, store, now);
      var b := Arrival(entries, i - 1, skip, clock, store, now);
      var a := Arrival(entries, i, skip, clock, store, now);
      EndsAlike(Sweep(entries, skip, clock, store, now), Sweep(entries[i - 1..], b.0, b.1, b.2, now),
                Sweep(entries[i..], a.0, a.1, a.2, now), entries[i - 1]);
    }
  }

  /** One entry of the pass: the remainder from `entries[i - 1]` ends as the
      remainder from `entries[i]`, each started in the state the pass
      reaches it in, except that `entries[i - 1]` may head the queue. */
  lemma ArrivalStep(entries: seq<QueueEntry>, i: nat, skip: bool, clock: Clock, store: KvStore, now: int)
    requires 0 < i <= |entries|
    ensures var b := Arrival(entries, i - 1, skip, clock, store, now);
            var a := Arrival(entries, i, skip, clock, store, now);
            var u := Sweep(entries[i - 1..], b.0, b.1, b.2, now);
            var t := Sweep(entries[i..], a.0, a.1, a.2, now);
            EndsAs(u, t) && (u.queue == t.queue || [entries[i - 1]] + t.queue == u.queue)
  {
    var b := Arrival(entries, i - 1, skip, clock, store, now);
    var a := Arrival(entries, i, skip, clock, store, now);
    var t := Sweep(entries[i..], a.0, a.1, a.2, now);
    SweepFirst(entries, i - 1, b.0, b.1, b.2, now);
    assert entries[i - 1 + 1..] == entries[i..];
    if b.0 || VerdictOf(entries[i - 1], b.1) == Keep {
      assert ([entries[i - 1]] + t.queue)[1..] == t.queue;
    } else {
      assert t.queue[|t.queue| - |t.queue|..] == t.queue;
    }
  }

  /** `r` ends as `t` does: the same clock and store, and a queue that ends
      with `t`'s queue. */
  predicate EndsAs(r: PassResult, t: PassResult)
  {
    r.clock == t.clock && r.store == t.store
    && |t.queue| <= |r.queue| && r.queue[|r.queue| - |t.queue|..] == t.queue
  }

  /** Ending alike chains through a result whose queue is `t`'s, possibly
      after one more entry. */
  lemma EndsAlike(r: PassResult, u: PassResult, t: PassResult, e: QueueEntry)
    requires EndsAs(r, u) && EndsAs(u, t)
    requires u.queue == t.queue || [e] + t.queue == u.queue
    ensures EndsAs(r, t)
  {
    if u.queue != t.queue {
      assert u.queue[1..] == t.queue;
      assert r.queue[|r.queue| - |t.queue|..] == r.queue[|r.queue| - |u.queue|..][1..];
    }
  }

  /** Entries that neither apply nor are covered stay queued: an entry that
      the pass reaches without skipping it and finds neither applicable nor
      covered (nor clockless) is still in the queue after the pass, wherever
      it stands in the queue. */
  lemma KeptEntryStays(entries: seq<QueueEntry>, i: nat, clock: Clock, store: KvStore, now: int)
    requires i < |entries|
    requires var a := Arrival(entries, i, false, clock, store, now);
             !a.0 && VerdictOf(entries[i], a.1) == Keep
    ensures entries[i] in Sweep(entries, false, clock, store, now).queue
  {
    StaysWhenReached(entries, i, clock, store, now);
  }

  /** The entry right after a removed one is not examined in that pass: it
      stays queued whatever its clock, wherever it stands in the queue. */
  lemma SkippedAfterRemoval(entries: seq<QueueEntry>, i: nat, clock: Clock, store: KvStore, now: int)
    requires i + 1 < |entries|
    requires var a := Arrival(entries, i, false, clock, store, now);
             !a.0 && VerdictOf(entries[i], a.1) != Keep
    ensures entries[i + 1] in Sweep(entries, false, clock, store, now).queue
  {
    assert Arrival(entries, i + 1, false, clock, store, now).0;
    StaysWhenReached(entries, i + 1, clock, store, now);
  }

  /** An entry the pass reaches skipping it, or keeping it, is in the final
      queue. */
  lemma StaysWhenReached(entries: seq<QueueEntry>, i: nat, clock: Clock, store: KvStore, now: int)
    requires i < |entries|
    requires var a := Arrival(entries, i, false, clock, store, now);
             a.0 || VerdictOf(entries[i], a.1) == Keep
    ensures entries[i] in Sweep(entries, false, clock, store, now).queue
  {
    var a := Arrival(entries, i, false, clock, store, now);
    var r := Sweep(entries, false, clock, store, now);
    SweepFromArrival(entries, i, false, clock, store, now);
    var t := Sweep(entries[i..], a.0, a.1, a.2, now);
    SweepFirst(entries, i, a.0, a.1, a.2, now);
    assert t.queue[0] == entries[i];
    assert r.queue[|r.queue| - |t.queue|] == entries[i];
  }

  /** An entry without a clock (or with an empty one) is dropped unapplied
      by a replica whose clock has any address. */
  lemma ClocklessEntryDropped(e: QueueEntry, clock: Clock)
    requires e.vc.None? || e.vc == Some([])
    requires |clock| > 0
    ensures VerdictOf(e, clock) == Drop
  {
    ParsedClockOfNothing();
  }

  class QueueService {
    var queue: seq<QueueEntry>
    const clockService: ClockService
    const kvsService: KvsService

    /** The service over the shared clock and store services, starting from
        the queue the model module holds. */
    constructor(initial: seq<QueueEntry>, clocks: ClockService, kvs: KvsService)
      ensures queue == initial && clockService == clocks && kvsService == kvs
    {
      queue := initial;
      clockService := clocks;
      kvsService := kvs;
    }

    /** `setQueue`: the whole queue is replaced. */
    method SetQueue(incoming: seq<QueueEntry>)
      modifies this
      ensures queue == incoming
    {
      queue := incoming;
    }

    /** `push`: the entry is appended; earlier entries keep their order. */
    method Push(incoming: QueueEntry)
      modifies this
      ensures queue == old(queue) + [incoming]
    {
      queue := queue + [incoming];
    }

    /** `resolve(q)`: the action is applied to the store (write, delete, or
        a merge of a whole store), then the entry's clock is merged into the
        local one. */
    method Resolve(q: QueueEntry, now: int)
      modifies clockService.vectorClock, kvsService
      ensures kvsService.kvs == Resolved(q.action, old(kvsService.kvs), now)
      ensures kvsService.proxyReqCount == old(kvsService.proxyReqCount)
      ensures clockService.vectorClock.clock == Merge(old(clockService.vectorClock.clock), ParsedClock(q.vc))
    {
      match q.action {
        case WriteAction(key, val) =>
          var _, _ := kvsService.CreateOrUpdateKv(key, val, None, None, now);
        case DeleteAction(key) =>
          var _, _ := kvsService.DeleteKv(key, None, None, now);
        case KvsAction(kvs) =>
          kvsService.UpdateKvs(kvs);
      }
      var vc := clockService.ParseReceivedClock(q.vc);
      clockService.vectorClock.UpdateClock(vc);
    }

    /** `pop`: one pass over the queue, as the sweep of the queue describes
        it. */
    method Pop(now: int)
      modifies this, clockService.vectorClock, kvsService
      ensures var r := Sweep(old(queue), false, old(clockService.vectorClock.clock), old(kvsService.kvs), now);
              queue == r.queue && clockService.vectorClock.clock == r.clock && kvsService.kvs == r.store
      ensures kvsService.proxyReqCount == old(kvsService.proxyReqCount)
    {
      ghost var target := Sweep(queue, false, clockService.vectorClock.clock, kvsService.kvs, now);
      ResumeStart(queue, clockService.vectorClock.clock, kvsService.kvs, now);
      var i := 0;
      while i < |queue|
        invariant i <= |queue| + 1
        invariant Resume(queue, i, clockService.vectorClock.clock, kvsService.kvs, now) == target
        invariant kvsService.proxyReqCount == old(kvsService.proxyReqCount)
        decreases |queue| + 1 - i
      {
        var q := queue[i];
        ghost var clock, store := clockService.vectorClock.clock, kvsService.kvs;
        var vc := clockService.ParseReceivedClock(q.vc);
        var next := CompareClocks(clockService.vectorClock.clock, q.sender, vc.clock);
        if next {
          assert VerdictOf(q, clock) == Apply;
          ResumeRemoved(queue, i, clock, store, now);
          Resolve(q, now);
          assert (clockService.vectorClock.clock, kvsService.kvs) == Examined(q, clock, store, now);
          queue := queue[..i] + queue[i + 1..];
        } else {
          var covered := ValidateClock(clockService.vectorClock.clock, Some(vc.clock));
          if covered {
            assert VerdictOf(q, clock) == Drop;
            ResumeRemoved(queue, i, clock, store, now);
            queue := queue[..i] + queue[i + 1..];
          } else {
            assert VerdictOf(q, clock) == Keep;
            ResumeKept(queue, i, clock, store, now);
          }
        }
        i := i + 1;
      }
    }
  }
}
