/** `src/services/causalContext.service.ts`: picking the latest of the causal
    contexts reported by several replicas. */
module CausalContexts {
  import opened Wrappers
  import opened Interfaces

  /** The context the selection starts from: timestamp 0, no dependencies. */
  const DefaultContext: CausalContext := CausalContext(0, Some(map[]))

  /** `getLatestCausalContext`: the contexts are visited in the object's key
      order (the order of `contexts`), and one replaces the current pick only
      when its timestamp is strictly larger. The result is the first context
      with the largest timestamp when that timestamp is positive, and the
      default otherwise. */
  method GetLatestCausalContext(contexts: seq<(string, CausalContext)>) returns (latest: CausalContext)
    ensures latest == DefaultContext || exists i :: 0 <= i < |contexts| && latest == contexts[i].1
    ensures latest.timestamp >= 0
    ensures forall i :: 0 <= i < |contexts| ==> contexts[i].1.timestamp <= latest.timestamp
    ensures latest.timestamp > 0 ==>
      exists i :: 0 <= i < |contexts| && latest == contexts[i].1
                  && forall j :: 0 <= j < i ==> contexts[j].1.timestamp < latest.timestamp
    ensures (forall i :: 0 <= i < |contexts| ==> contexts[i].1.timestamp <= 0) ==> latest == DefaultContext
  {
    latest := DefaultContext;
    var n := 0;
    while n < |contexts|
      invariant 0 <= n <= |contexts|
      invariant latest.timestamp >= 0
      invariant forall i :: 0 <= i < n ==> contexts[i].1.timestamp <= latest.timestamp
      invariant latest == DefaultContext || exists i :: 0 <= i < n && latest == contexts[i].1
      invariant latest.timestamp > 0 ==>
        exists i :: 0 <= i < n && latest == contexts[i].1
                    && forall j :: 0 <= j < i ==> contexts[j].1.timestamp < latest.timestamp
      invariant (forall i :: 0 <= i < n ==> contexts[i].1.timestamp <= 0) ==> latest == DefaultContext
    {
      var cc := contexts[n].1;
      if cc.timestamp > latest.timestamp {
        latest := cc;
      }
      n := n + 1;
    }
  }
}
