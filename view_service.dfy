/** `src/services/view.service.ts`: the replica's view of the cluster, a list
    of shards each holding its member addresses, the index of the shard the
    replica takes as its own, and the shard count. Nodes are placed
    positionally: node `i` of the incoming list goes to shard `i mod
    num_shards`. A view change is decided from the difference between the
    old and the new member lists. */
module Views {
  import opened Wrappers
  import opened Interfaces
  import opened Kvs

  /** Every node of a view, shard after shard, in order. */
  function Flatten(view: seq<Shard>): seq<string>
  {
    if view == [] then [] else view[0].nodes + Flatten(view[1..])
  }

  /** The nodes of `incoming` whose position is `j` modulo `n`, in order. */
  function NodesOf(incoming: seq<string>, n: int, j: int): (nodes: seq<string>)
    requires n > 0
    ensures |nodes| <= |incoming|
    ensures forall x :: x in nodes ==> x in incoming
  {
    if incoming == [] then []
    else
      var m := |incoming| - 1;
      NodesOf(incoming[..m], n, j) + (if m % n == j then [incoming[m]] else [])
  }

  /** The view `updateView` builds: `n` shards with ids `0..n-1`, shard `j`
      holding the nodes at positions `j` modulo `n`. */
  function PositionalView(incoming: seq<string>, n: int): (view: seq<Shard>)
    requires n > 0
    ensures |view| == n
    ensures forall j :: 0 <= j < n ==> view[j].shardId == j
  {
    seq(n, j requires 0 <= j < n => Shard(j, NodesOf(incoming, n, j)))
  }

  /** The first shard whose nodes include `address`. */
  function FirstContaining(view: seq<Shard>, address: string): (r: Option<nat>)
    ensures r.Some? ==> r.value < |view| && address in view[r.value].nodes
    ensures r.Some? ==> forall i :: 0 <= i < r.value ==> address !in view[i].nodes
    ensures r.None? ==> forall i :: 0 <= i < |view| ==> address !in view[i].nodes
  {
    if view == [] then None
    else if address in view[0].nodes then Some(0)
    else
      var rest := FirstContaining(view[1..], address);
      assert forall i :: 1 <= i < |view| ==> view[i] == view[1..][i - 1];
      if rest.None? then None else Some(rest.value + 1)
  }

  /** `xs.filter(n => !ys.includes(n))`: the elements of `xs` not in `ys`, in
      order. */
  function Without(xs: seq<string>, ys: seq<string>): (r: seq<string>)
    ensures forall x :: x in r <==> x in xs && x !in ys
    ensures |r| <= |xs|
  {
    if xs == [] then []
    else
      var rest := Without(xs[1..], ys);
      assert forall x :: x in xs <==> x == xs[0] || x in xs[1..];
      if xs[0] !in ys then [xs[0]] + rest else rest
  }

  /** `containsAll(arr1, arr2)`: every element of `arr2` is in `arr1`. */
  predicate ContainsAll(arr1: seq<string>, arr2: seq<string>)
  {
    forall x :: x in arr2 ==> x in arr1
  }

  /** `sameMembers`: mutual containment. */
  predicate SameMembers(arr1: seq<string>, arr2: seq<string>)
  {
    ContainsAll(arr1, arr2) && ContainsAll(arr2, arr1)
  }

  /** What `setView` goes on to do once the new view is in place. Whether
      this replica must also take over the socket hub depends on socket state
      that is not modelled; the decision names the nodes involved. */
  datatype ViewDecision =
    | InitialView(forwardTo: seq<string>)       // first view from a client: forward to the others, start the hub
    | InitialViewFromPeer                       // first view, sent by another replica
    | ViewChange(missing: seq<string>, extra: seq<string>)
    | NoViewChange

  /** The decision `setView` takes from the old node list and shard count. */
  function Decide(oldList: seq<string>, prevNumShards: int, newNumShards: int, incoming: seq<string>,
                  fromClient: bool, address: string): (d: ViewDecision)
    ensures oldList == [] ==> (d.InitialView? <==> fromClient) && (d.InitialViewFromPeer? <==> !fromClient)
    ensures d.InitialView? ==> forall x :: x in d.forwardTo <==> x in incoming && x != address
    ensures oldList != [] ==>
      (d.ViewChange? <==> fromClient && (!SameMembers(oldList, incoming) || prevNumShards != newNumShards))
    ensures d.ViewChange? ==> (forall x :: x in d.missing <==> x in oldList && x !in incoming)
                              && (forall x :: x in d.extra <==> x in incoming && x !in oldList)
  {
    if oldList == [] then
      (if fromClient then InitialView(Without(incoming, [address])) else InitialViewFromPeer)
    else if fromClient && (!SameMembers(oldList, incoming) || prevNumShards != newNumShards) then
      ViewChange(Without(oldList, incoming), Without(incoming, oldList))
    else NoViewChange
  }

  class ViewService {
    var view: seq<Shard>
    var shardIndex: int
    var numShards: int
    const kvsService: KvsService

    /** A fresh service: empty view, no shard of its own, one shard. */
    constructor(kvs: KvsService)
      ensures view == [] && shardIndex == -1 && numShards == 1
      ensures kvsService == kvs
    {
      view := [];
      shardIndex := -1;
      numShards := 1;
      kvsService := kvs;
    }

    /** `updateView(incoming)`: rebuilds the view positionally and sets the
        shard index to the shard of the LAST node, which is not necessarily
        this replica's. With no shards and a non-empty list the source has
        emptied the view, sets the index to `0 % num_shards` and throws on
        the missing shard; `threw` reports that. For a negative count that
        index is 0; for a zero count it is NaN, which an integer index does
        not represent. */
    method UpdateView(incoming: seq<string>) returns (threw: bool)
      modifies this
      ensures numShards == old(numShards)
      ensures threw <==> numShards <= 0 && incoming != []
      ensures threw ==> view == []
      ensures threw && numShards < 0 ==> shardIndex == 0
      ensures !threw && numShards > 0 ==> view == PositionalView(incoming, numShards)
      ensures !threw && numShards <= 0 ==> view == []
      ensures !threw ==> shardIndex == if incoming == [] then old(shardIndex) else (|incoming| - 1) % numShards
    {
      view := [];
      var i := 0;
      while i < numShards
        invariant numShards == old(numShards)
        invariant if numShards > 0 then 0 <= i <= numShards else i == 0
        invariant |view| == i
        invariant forall j :: 0 <= j < i ==> view[j] == Shard(j, [])
        invariant shardIndex == old(shardIndex)
      {
        view := view + [Shard(i, [])];
        i := i + 1;
      }
      if incoming != [] && numShards <= 0 {
        if numShards < 0 {
          shardIndex := 0;
        }
        return true;
      }
      threw := false;
      if incoming == [] {
        if numShards > 0 {
          PositionalViewOfShards(view, incoming, numShards);
        }
        return;
      }
      var n := numShards;
      assert incoming[..0] == [];
      i := 0;
      while i < |incoming|
        invariant 0 <= i <= |incoming|
        invariant numShards == n && |view| == n
        invariant forall j :: 0 <= j < n ==> view[j] == Shard(j, NodesOf(incoming[..i], n, j))
        invariant shardIndex == if i == 0 then old(shardIndex) else (i - 1) % n
      {
        var k := i % n;
        shardIndex := k;
        view := view[k := Shard(view[k].shardId, view[k].nodes + [incoming[i]])];
        NodesOfStep(incoming, n, i);
        i := i + 1;
      }
      assert incoming[..i] == incoming;
      PositionalViewOfShards(view, incoming, n);
    }

    /** The state part of `replaceView(view)`: the given view is stored as it
        is, and the shard index becomes the first shard that lists `address`,
        staying unchanged when none does. The source then reads
        `view[shard_index].nodes`, which throws when the index names no shard
        of the new view; `threw` reports that. */
    method ReplaceView(newView: seq<Shard>, address: string) returns (threw: bool)
      modifies this
      ensures view == newView
      ensures shardIndex == if FirstContaining(newView, address).Some? then FirstContaining(newView, address).value
                            else old(shardIndex)
      ensures numShards == old(numShards)
      ensures threw <==> !(0 <= shardIndex < |newView|)
      ensures threw <==> FirstContaining(newView, address).None? && !(0 <= old(shardIndex) < |newView|)
    {
      view := newView;
      var i := 0;
      while i < |newView|
        invariant 0 <= i <= |newView|
        invariant forall j :: 0 <= j < i ==> address !in newView[j].nodes
        invariant shardIndex == old(shardIndex)
        invariant view == newView && numShards == old(numShards)
      {
        if address in newView[i].nodes {
          shardIndex := i;
          break;
        }
        i := i + 1;
      }
      threw := !(0 <= shardIndex < |newView|);
    }

    /** `deleteView`: the store is cleared, the view emptied and the shard
        index reset. */
    method DeleteView()
      modifies this, kvsService
      ensures kvsService.kvs == map[]
      ensures kvsService.proxyReqCount == old(kvsService.proxyReqCount)
      ensures view == [] && shardIndex == -1 && numShards == old(numShards)
    {
      kvsService.ClearKvs();
      view := [];
      shardIndex := -1;
    }

    /** `getShardReplicas(i)`: the nodes of shard `i`; `None` where the source
        reads `.nodes` of a missing shard and throws. */
    method GetShardReplicas(shardId: int) returns (nodes: Option<seq<string>>)
      ensures nodes.Some? <==> 0 <= shardId < |view|
      ensures nodes.Some? ==> nodes.value == view[shardId].nodes
    {
      if 0 <= shardId < |view| {
        nodes := Some(view[shardId].nodes);
      } else {
        nodes := None;
      }
    }

    /** The `oldList` loop of `setView`: every node of the current view,
        shard by shard. */
    method OldList() returns (list: seq<string>)
      ensures list == Flatten(view)
    {
      list := [];
      var i := 0;
      while i < |view|
        invariant 0 <= i <= |view|
        invariant list + Flatten(view[i..]) == Flatten(view)
      {
        assert view[i..][1..] == view[i + 1..];
        list := list + view[i].nodes;
        i := i + 1;
      }
    }

    /** `setView` up to its decision: the shard count is replaced, the old
        node list taken, the view rebuilt, and then a first view is forwarded
        (when a client sent it) or, for a later view from a client, a change
        is taken exactly when the member sets differ or the shard count
        changed. Between the rebuild and the decision the source reads
        `view[shard_index].nodes`, which throws when the index names no shard
        of the new view: always with no shards, and with an empty node list
        whenever the index kept from before lies outside the new shards. */
    method SetView(newNumShards: int, incoming: seq<string>, fromClient: bool, address: string)
      returns (decision: ViewDecision, threw: bool)
      modifies this
      ensures numShards == newNumShards
      ensures threw <==> newNumShards <= 0 || (incoming == [] && !(0 <= old(shardIndex) < newNumShards))
      ensures newNumShards > 0 ==> view == PositionalView(incoming, newNumShards)
      ensures newNumShards <= 0 ==> view == []
      ensures incoming == [] ==> shardIndex == old(shardIndex)
      ensures incoming != [] && newNumShards > 0 ==> shardIndex == (|incoming| - 1) % newNumShards
      ensures incoming != [] && newNumShards < 0 ==> shardIndex == 0
      ensures !threw ==> decision == Decide(Flatten(old(view)), old(numShards), newNumShards, incoming, fromClient, address)
    {
      var prevNumShards := numShards;
      numShards := newNumShards;
      var oldList := OldList();
      threw := UpdateView(incoming);
      decision := NoViewChange;
      if threw {
        return;
      }
      if !(0 <= shardIndex < |view|) {
        threw := true;
        return;
      }
      if |oldList| == 0 {
        if fromClient {
          decision := InitialView(Without(incoming, [address]));
        } else {
          decision := InitialViewFromPeer;
        }
      } else if fromClient {
        var missing := Without(oldList, incoming);
        var extra := Without(incoming, oldList);
        if !SameMembers(oldList, incoming) || prevNumShards != numShards {
          decision := ViewChange(missing, extra);
        }
      }
    }
  }

  /** The member sets agree exactly when nothing is missing and nothing is
      extra. */
  lemma SameMembersIffNoDifference(oldList: seq<string>, incoming: seq<string>)
    ensures SameMembers(oldList, incoming) <==> Without(oldList, incoming) == [] && Without(incoming, oldList) == []
  {
    if !SameMembers(oldList, incoming) {
      if !ContainsAll(oldList, incoming) {
        var x :| x in incoming && x !in oldList;
        assert x in Without(incoming, oldList);
      } else {
        var x :| x in oldList && x !in incoming;
        assert x in Without(oldList, incoming);
      }
    } else {
      WithoutContained(oldList, incoming);
      WithoutContained(incoming, oldList);
    }
  }

  /** Nothing is left when every element is in the other list. */
  lemma {:induction false} WithoutContained(xs: seq<string>, ys: seq<string>)
    requires ContainsAll(ys, xs)
    ensures Without(xs, ys) == []
    decreases |xs|
  {
    if xs != [] {
      assert xs[0] in xs;
      WithoutContained(xs[1..], ys);
    }
  }

  /** Taking one more node of the list adds it to the shard of its position
      and to no other. */
  lemma NodesOfStep(incoming: seq<string>, n: int, i: nat)
    requires n > 0 && i < |incoming|
    ensures forall j :: NodesOf(incoming[..i + 1], n, j)
                        == NodesOf(incoming[..i], n, j) + (if i % n == j then [incoming[i]] else [])
  {
    assert incoming[..i + 1][..i] == incoming[..i];
  }

  /** Shards `0..n-1` holding the nodes of their positions form the
      positional view. */
  lemma PositionalViewOfShards(view: seq<Shard>, incoming: seq<string>, n: int)
    requires n > 0 && |view| == n
    requires forall j :: 0 <= j < n ==> view[j] == Shard(j, NodesOf(incoming, n, j))
    ensures view == PositionalView(incoming, n)
  {
  }

  /** Node `i` of the incoming list is placed in shard `i mod n`. */
  lemma {:induction false} NodePlacedByPosition(incoming: seq<string>, n: int, i: nat)
    requires n > 0 && i < |incoming|
    ensures incoming[i] in NodesOf(incoming, n, i % n)
    decreases |incoming|
  {
    var m := |incoming| - 1;
    if i < m {
      assert incoming[..m][i] == incoming[i];
      NodePlacedByPosition(incoming[..m], n, i);
    }
  }

  /** Appending to one shard's nodes adds that node once to the flattened
      view. */
  lemma {:induction false} FlattenAppend(view: seq<Shard>, k: nat, x: string)
    requires k < |view|
    ensures multiset(Flatten(view[k := Shard(view[k].shardId, view[k].nodes + [x])]))
            == multiset(Flatten(view)) + multiset{x}
    decreases |view|
  {
    var updated := view[k := Shard(view[k].shardId, view[k].nodes + [x])];
    var rest := Flatten(view[1..]);
    assert Flatten(view) == view[0].nodes + rest;
    if k == 0 {
      assert updated[1..] == view[1..];
      assert Flatten(updated) == (view[0].nodes + [x]) + rest;
      assert multiset(Flatten(updated)) == multiset(view[0].nodes) + multiset{x} + multiset(rest);
    } else {
      assert updated[1..] == view[1..][k - 1 := Shard(view[k].shardId, view[k].nodes + [x])];
      FlattenAppend(view[1..], k - 1, x);
      assert Flatten(updated) == view[0].nodes + Flatten(updated[1..]);
    }
  }

  /** The positional view holds every incoming node exactly as often as the
      list does: flattened, it is a permutation of `incoming`. */
  lemma {:induction false} PositionalViewIsPermutation(incoming: seq<string>, n: int)
    requires n > 0
    ensures multiset(Flatten(PositionalView(incoming, n))) == multiset(incoming)
    decreases |incoming|
  {
    if incoming == [] {
      EmptyShardsFlatten(PositionalView(incoming, n));
    } else {
      var m := |incoming| - 1;
      var init := incoming[..m];
      PositionalViewIsPermutation(init, n);
      var before := PositionalView(init, n);
      var k := m % n;
      PositionalViewStep(incoming, n);
      FlattenAppend(before, k, incoming[m]);
      assert incoming == init + [incoming[m]];
    }
  }

  /** The positional view of a list is that of the list without its last
      node, with the node appended to the shard of its position. */
  lemma PositionalViewStep(incoming: seq<string>, n: int)
    requires n > 0 && incoming != []
    ensures var m := |incoming| - 1;
            var before := PositionalView(incoming[..m], n);
            PositionalView(incoming, n) == before[m % n := Shard(m % n, before[m % n].nodes + [incoming[m]])]
  {
    var m := |incoming| - 1;
    var before := PositionalView(incoming[..m], n);
    var after := before[m % n := Shard(m % n, before[m % n].nodes + [incoming[m]])];
    NodesOfStep(incoming, n, m);
    assert incoming[..m + 1] == incoming;
    forall j | 0 <= j < n ensures PositionalView(incoming, n)[j] == after[j] { }
  }

  lemma {:induction false} EmptyShardsFlatten(view: seq<Shard>)
    requires forall j :: 0 <= j < |view| ==> view[j].nodes == []
    ensures Flatten(view) == []
    decreases |view|
  {
    if view != [] {
      EmptyShardsFlatten(view[1..]);
    }
  }
}
