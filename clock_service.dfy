/** `src/services/clock.service.ts`: the replica's own vector clock, and the
    parser that turns a received pair list into a fresh clock. */
module ClockServices {
  import opened Wrappers
  import opened Interfaces
  import opened Clocks

  /** The clock a pair list builds when `setClock` is applied to each pair in
      order, starting from an empty clock. */
  function PairsToClock(pairs: ClockPairs): Clock
  {
    if pairs == [] then map[]
    else PairsToClock(pairs[..|pairs| - 1])[pairs[|pairs| - 1].0 := pairs[|pairs| - 1].1]
  }

  /** The clock `parseReceivedClock` returns: empty for an absent or empty
      list, the pairs folded in otherwise. */
  function ParsedClock(metadata: Option<ClockPairs>): Clock
  {
    if metadata.None? || |metadata.value| == 0 then map[] else PairsToClock(metadata.value)
  }

  /** The parsed clock's addresses are exactly those named in the list. */
  lemma {:induction false} PairsToClockAddresses(pairs: ClockPairs)
    ensures PairsToClock(pairs).Keys == set i | 0 <= i < |pairs| :: pairs[i].0
  {
    if pairs != [] {
      var init := pairs[..|pairs| - 1];
      PairsToClockAddresses(init);
      var last := |pairs| - 1;
      assert (set i | 0 <= i < |pairs| :: pairs[i].0)
          == (set i | 0 <= i < |init| :: init[i].0) + {pairs[last].0} by {
        forall i | 0 <= i < |init| ensures init[i].0 == pairs[i].0 { }
        forall i | 0 <= i < |pairs|
          ensures pairs[i].0 in (set j | 0 <= j < |init| :: init[j].0) + {pairs[last].0}
        {
          if i < last { assert init[i].0 == pairs[i].0; }
        }
      }
    }
  }

  /** For an address that repeats, the last pair naming it wins. */
  lemma {:induction false} PairsToClockLastWins(pairs: ClockPairs, i: nat)
    requires i < |pairs|
    requires forall j :: i < j < |pairs| ==> pairs[j].0 != pairs[i].0
    ensures pairs[i].0 in PairsToClock(pairs)
    ensures PairsToClock(pairs)[pairs[i].0] == pairs[i].1
  {
    var last := |pairs| - 1;
    if i < last {
      var init := pairs[..last];
      assert init[i] == pairs[i];
      assert forall j :: i < j < |init| ==> init[j] == pairs[j];
      PairsToClockLastWins(init, i);
    }
  }

  /** An absent list and an empty one both parse to the empty clock. */
  lemma ParsedClockOfNothing()
    ensures ParsedClock(None) == map[] && ParsedClock(Some([])) == map[]
  {
  }

  class ClockService {
    var vectorClock: VectorClock

    /** The service's own clock: every listed address at 0; the replica
        builds it from its own address alone. */
    constructor(processIds: seq<string>)
      ensures fresh(vectorClock)
      ensures vectorClock.clock == ZeroClock(processIds)
    {
      vectorClock := new VectorClock(processIds);
    }

    /** `parseReceivedClock`: a fresh clock built by `setClock` per pair, in
        list order. The service's own clock is not touched (nothing is
        modified). */
    method ParseReceivedClock(metadata: Option<ClockPairs>) returns (vc: VectorClock)
      ensures fresh(vc)
      ensures vc.clock == ParsedClock(metadata)
    {
      vc := new VectorClock([]);
      if metadata.Some? && |metadata.value| != 0 {
        var pairs := metadata.value;
        var i := 0;
        while i < |pairs|
          invariant 0 <= i <= |pairs|
          invariant vc.clock == PairsToClock(pairs[..i])
        {
          assert pairs[..i + 1][..i] == pairs[..i];
          vc.SetClock(pairs[i].0, pairs[i].1);
          i := i + 1;
        }
        assert pairs[..i] == pairs;
      }
    }
  }
}
