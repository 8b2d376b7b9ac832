/** The vector clock of `src/models/clock.ts`: a map from process address to
    the number of events seen from it. The mutators live on the class
    `VectorClock`, which updates its map in place; the read-only comparisons are
    loops over a map and are methods over maps, each proved against the
    predicate that says what it answers. */
module Clocks {
  import opened Wrappers
  import opened JsSemantics

  type Clock = map<string, int>

  /** `clock.get(p) || 0`: the entry, or 0 for an absent address. */
  function ValueOr0(c: Clock, p: string): int
  {
    if p in c then c[p] else 0
  }

  /** A clock over the given addresses with every entry 0. */
  function ZeroClock(ids: seq<string>): Clock
  {
    map p | p in ids :: 0
  }

  predicate SameAddresses(a: Clock, b: Clock)
  {
    a.Keys == b.Keys
  }

  /** No received entry is ahead of the local one. */
  predicate Dominates(local: Clock, received: Clock)
  {
    forall p :: p in received ==> received[p] <= ValueOr0(local, p)
  }

  /** What `validateClock` answers: the local clock has seen everything the
      received one has (an absent or empty received clock trivially so). */
  predicate Covers(local: Clock, received: Option<Clock>)
  {
    received.None? || |received.value| == 0
    || (SameAddresses(local, received.value) && Dominates(local, received.value))
  }

  /** What `compareClocks` answers: `received` is exactly the next event from
      `sender` after what the local clock has seen. */
  predicate NextEventFrom(local: Clock, sender: string, received: Clock)
  {
    && SameAddresses(local, received)
    && forall p :: p in received ==>
         if p == sender then received[p] == ValueOr0(local, p) + 1 else received[p] <= ValueOr0(local, p)
  }

  /** Pointwise order of clocks: every entry of `a` is in `b` and no larger. */
  predicate Leq(a: Clock, b: Clock)
  {
    a.Keys <= b.Keys && forall p :: p in a ==> a[p] <= b[p]
  }

  /** The clock `updateClock` leaves: entries of `other` merged in with
      `Math.max`, new addresses taken as they are. */
  function Merge(local: Clock, other: Clock): Clock
  {
    map p | p in local.Keys + other.Keys ::
      if p in other then (if p in local then MathMax(local[p], other[p]) else other[p]) else local[p]
  }

  /** A subset as large as its superset is the superset. */
  lemma SubsetOfSameSize<T>(a: set<T>, b: set<T>)
    requires a <= b && |a| == |b|
    ensures a == b
  {
    assert b == a + (b - a);
    assert a * (b - a) == {};
    assert |b - a| == 0;
    assert b - a == {};
  }

  /** `hasSameAddresses`: true for an absent clock, otherwise true exactly when
      the two address sets agree (the source compares sizes, then looks every
      local address up in the other clock). */
  method HasSameAddresses(local: Clock, other: Option<Clock>) returns (same: bool)
    ensures same <==> (other.None? || SameAddresses(local, other.value))
  {
    if other.None? {
      return true;
    }
    var o := other.value;
    if |local| != |o| {
      assert |local.Keys| != |o.Keys|;
      return false;
    }
    var rest := local.Keys;
    while rest != {}
      invariant rest <= local.Keys
      invariant forall p :: p in local.Keys - rest ==> p in o
      decreases rest
    {
      var p :| p in rest;
      if p !in o {
        return false;
      }
      rest := rest - {p};
    }
    SubsetOfSameSize(local.Keys, o.Keys);
    return true;
  }

  /** `equals`: true exactly when the two clocks are the same map. */
  method Equals(local: Clock, received: Clock) returns (eq: bool)
    ensures eq <==> local == received
  {
    var same := HasSameAddresses(local, Some(received));
    if !same {
      return false;
    }
    var rest := received.Keys;
    while rest != {}
      invariant rest <= received.Keys
      invariant forall p :: p in received.Keys - rest ==> received[p] == ValueOr0(local, p)
      decreases rest
    {
      var p :| p in rest;
      if received[p] != ValueOr0(local, p) {
        return false;
      }
      rest := rest - {p};
    }
    assert forall p :: p in local ==> local[p] == received[p];
    return true;
  }

  /** `validateClock`: true when the received clock is absent or empty, false
      when the address sets differ, and otherwise true exactly when no
      received entry exceeds the local one. */
  method ValidateClock(local: Clock, received: Option<Clock>) returns (ok: bool)
    ensures ok <==> Covers(local, received)
  {
    if received.None? || |received.value| == 0 {
      return true;
    }
    var r := received.value;
    var same := HasSameAddresses(local, received);
    if !same {
      return false;
    }
    var rest := r.Keys;
    while rest != {}
      invariant rest <= r.Keys
      invariant forall p :: p in r.Keys - rest ==> r[p] <= ValueOr0(local, p)
      decreases rest
    {
      var p :| p in rest;
      if r[p] > ValueOr0(local, p) {
        return false;
      }
      rest := rest - {p};
    }
    return true;
  }

  /** `compareClocks(sender, received)`: true exactly when the address sets
      agree, the sender's entry is one past the local one and no other entry
      is ahead of the local one. */
  method CompareClocks(local: Clock, sender: string, received: Clock) returns (ok: bool)
    ensures ok <==> NextEventFrom(local, sender, received)
  {
    var same := HasSameAddresses(local, Some(received));
    if !same {
      return false;
    }
    var rest := received.Keys;
    while rest != {}
      invariant rest <= received.Keys
      invariant forall p :: p in received.Keys - rest ==>
        if p == sender then received[p] == ValueOr0(local, p) + 1 else received[p] <= ValueOr0(local, p)
      decreases rest
    {
      var p :| p in rest;
      if p == sender {
        if received[p] != ValueOr0(local, p) + 1 {
          return false;
        }
      } else if received[p] > ValueOr0(local, p) {
        return false;
      }
      rest := rest - {p};
    }
    return true;
  }

  /** When the sender is not one of the addresses, `compareClocks` is the
      plain "no entry ahead" test on equal address sets. */
  lemma NextEventWithoutSender(local: Clock, sender: string, received: Clock)
    requires sender !in received
    ensures NextEventFrom(local, sender, received) <==> SameAddresses(local, received) && Dominates(local, received)
  {
  }

  /** A next event from a listed sender is never already covered, so the two
      tests the queue applies in turn never both hold. */
  lemma NextEventIsNotCovered(local: Clock, sender: string, received: Clock)
    requires sender in received && NextEventFrom(local, sender, received)
    ensures !Covers(local, Some(received))
  {
    assert received[sender] > ValueOr0(local, sender);
  }

  /** Merging keeps every address of both clocks. */
  lemma MergeAddresses(local: Clock, other: Clock)
    ensures Merge(local, other).Keys == local.Keys + other.Keys
  {
  }

  /** The merge is an upper bound of both clocks, and the least one. */
  lemma MergeIsLeastUpperBound(a: Clock, b: Clock, c: Clock)
    ensures Leq(a, Merge(a, b)) && Leq(b, Merge(a, b))
    ensures Leq(a, c) && Leq(b, c) ==> Leq(Merge(a, b), c)
  {
  }

  /** Merging the same clock twice is merging it once. */
  lemma MergeIdempotent(a: Clock, b: Clock)
    ensures Merge(Merge(a, b), b) == Merge(a, b)
  {
    var m := Merge(a, b);
    assert Merge(m, b).Keys == m.Keys;
    forall p | p in m ensures Merge(m, b)[p] == m[p] {
      if p in b {
        assert m[p] >= b[p];
      }
    }
  }

  /** After merging a received clock whose addresses include all local ones,
      the local clock covers it: the same message is no longer ahead. */
  lemma MergeCoversReceived(local: Clock, received: Clock)
    requires local.Keys <= received.Keys
    ensures Covers(Merge(local, received), Some(received))
  {
    assert Merge(local, received).Keys == received.Keys;
  }

  /** `equals` agrees with the "equal addresses, equal entries" reading of the
      source's loop. */
  lemma EqualsIsEntrywise(local: Clock, received: Clock)
    ensures local == received <==>
      SameAddresses(local, received) && forall p :: p in received ==> received[p] == ValueOr0(local, p)
  {
    if SameAddresses(local, received) && forall p :: p in received ==> received[p] == ValueOr0(local, p) {
      assert forall p :: p in local ==> local[p] == received[p];
    }
  }

  /** The in-place clock object. */
  class VectorClock {
    var clock: Clock

    /** Every listed id with entry 0 (a repeated id is set to 0 again). */
    constructor(processIds: seq<string>)
      ensures clock == ZeroClock(processIds)
      ensures clock.Keys == set p | p in processIds
      ensures forall p :: p in clock ==> clock[p] == 0
    {
      clock := map[];
      new;
      var i := 0;
      while i < |processIds|
        invariant 0 <= i <= |processIds|
        invariant clock == ZeroClock(processIds[..i])
      {
        AddClock(processIds[i]);
        assert processIds[..i + 1] == processIds[..i] + [processIds[i]];
        i := i + 1;
      }
      assert processIds[..i] == processIds;
    }

    /** `setClock(p, v)`: entry `p` becomes `v`; nothing else changes. */
    method SetClock(processId: string, val: int)
      modifies this
      ensures clock == old(clock)[processId := val]
    {
      clock := clock[processId := val];
    }

    /** `addClock(p)`: entry `p` becomes 0 even if it had a value. */
    method AddClock(processId: string)
      modifies this
      ensures clock == old(clock)[processId := 0]
    {
      clock := clock[processId := 0];
    }

    /** `deleteClock(p)`: address `p` is dropped. */
    method DeleteClock(processId: string)
      modifies this
      ensures clock == old(clock) - {processId}
    {
      clock := clock - {processId};
    }

    /** `incrementClock(p)`: entry `p` becomes its old value plus one, an absent
        entry counting as 0. */
    method IncrementClock(processId: string)
      modifies this
      ensures clock == old(clock)[processId := ValueOr0(old(clock), processId) + 1]
    {
      var current := ValueOr0(clock, processId);
      clock := clock[processId := current + 1];
    }

    /** `updateClock(other)`: the pointwise-max merge of both clocks. */
    method UpdateClock(other: VectorClock)
      modifies this
      ensures clock == Merge(old(clock), old(other.clock))
    {
      var src := other.clock;
      ghost var start := clock;
      var rest := src.Keys;
      while rest != {}
        invariant rest <= src.Keys
        invariant clock.Keys == start.Keys + (src.Keys - rest)
        invariant forall p :: p in clock ==>
          clock[p] == if p in src.Keys - rest then (if p in start then MathMax(start[p], src[p]) else src[p]) else start[p]
        decreases rest
      {
        var p :| p in rest;
        if p in clock {
          assert p in start;
          clock := clock[p := MathMax(clock[p], src[p])];
        } else {
          clock := clock[p := src[p]];
        }
        rest := rest - {p};
      }
      assert clock == Merge(start, src);
    }
  }
}
