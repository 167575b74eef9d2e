/** Simple paths and cycles written out as sequences, and the ghost chain that a
    depth-first search keeps in its `parent` map. */
module Paths {
  import opened Reachability

  ghost predicate NoRepeats(s: seq<Id>)
  {
    forall i, j :: 0 <= i < j < |s| ==> s[i] != s[j]
  }

  function Items(s: seq<Id>): set<Id>
  {
    set x | x in s
  }

  ghost predicate Hop(arcs: Arcs, p: seq<Id>, i: int)
  {
    0 < i < |p| && (p[i - 1], p[i]) in arcs
  }

  /** A path that repeats no node and uses only existing arcs. */
  ghost predicate IsPath(arcs: Arcs, p: seq<Id>)
  {
    && p != []
    && NoRepeats(p)
    && (forall i {:trigger Hop(arcs, p, i)} :: 0 < i < |p| ==> Hop(arcs, p, i))
  }

  /** A simple directed cycle through at least two nodes; the closing arc exists too. */
  ghost predicate IsCycle(arcs: Arcs, c: seq<Id>)
  {
    |c| >= 2 && IsPath(arcs, c) && (c[|c| - 1], c[0]) in arcs
  }

  /** Some cycle runs through two or more nodes. */
  ghost predicate Cyclic(arcs: Arcs)
  {
    exists u, v :: u != v && Mutual(arcs, u, v)
  }

  lemma {:induction false} PathReach(arcs: Arcs, p: seq<Id>, i: nat, j: nat)
    requires IsPath(arcs, p) && i <= j < |p|
    ensures Reach(arcs, p[i], p[j])
    decreases j - i
  {
    if i == j {
      ReachRefl(arcs, p[i]);
    } else {
      PathReach(arcs, p, i + 1, j);
      assert Hop(arcs, p, i + 1);
      ReachCons(arcs, p[i], p[i + 1], p[j]);
    }
  }

  lemma CycleMutual(arcs: Arcs, c: seq<Id>, i: nat, j: nat)
    requires IsCycle(arcs, c) && i < |c| && j < |c|
    ensures Mutual(arcs, c[i], c[j])
  {
    AroundCycle(arcs, c, i, j);
    AroundCycle(arcs, c, j, i);
  }

  lemma AroundCycle(arcs: Arcs, c: seq<Id>, i: nat, j: nat)
    requires IsCycle(arcs, c) && i < |c| && j < |c|
    ensures Reach(arcs, c[i], c[j])
  {
    PathReach(arcs, c, i, |c| - 1);
    PathReach(arcs, c, 0, j);
    ReachCons(arcs, c[|c| - 1], c[0], c[j]);
    ReachTrans(arcs, c[i], c[|c| - 1], c[j]);
  }

  lemma PathMono(arcs: Arcs, more: Arcs, p: seq<Id>)
    requires arcs <= more && IsPath(arcs, p)
    ensures IsPath(more, p)
  {
    forall i | 0 < i < |p|
      ensures Hop(more, p, i)
    {
      assert Hop(arcs, p, i);
    }
  }

  // ---------------------------------------------------------------- parent chains

  ghost predicate Parented(parent: map<Id, Id>, chain: seq<Id>, i: int)
  {
    0 < i < |chain| && chain[i] in parent && parent[chain[i]] == chain[i - 1]
  }

  /** The nodes whose calls are open, outermost first: a path that the parent map records. */
  ghost predicate IsChain(arcs: Arcs, parent: map<Id, Id>, chain: seq<Id>)
  {
    && IsPath(arcs, chain)
    && (forall i {:trigger Parented(parent, chain, i)} :: 0 < i < |chain| ==> Parented(parent, chain, i))
  }

  lemma ExtendChain(arcs: Arcs, parent: map<Id, Id>, chain: seq<Id>, next: Id)
    requires IsChain(arcs, parent, chain)
    requires next !in chain && (chain[|chain| - 1], next) in arcs
    ensures IsChain(arcs, parent[next := chain[|chain| - 1]], chain + [next])
  {
    var longer, parent' := chain + [next], parent[next := chain[|chain| - 1]];
    forall i | 0 < i < |longer|
      ensures Hop(arcs, longer, i) && Parented(parent', longer, i)
    {
      if i < |chain| {
        assert Hop(arcs, chain, i) && Parented(parent, chain, i);
      }
    }
  }

  lemma KeepChain(arcs: Arcs, parent: map<Id, Id>, later: map<Id, Id>, chain: seq<Id>)
    requires IsChain(arcs, parent, chain)
    requires forall x :: x in chain && x in parent ==> x in later && later[x] == parent[x]
    ensures IsChain(arcs, later, chain)
  {
    forall i | 0 < i < |chain|
      ensures Parented(later, chain, i)
    {
      assert Parented(parent, chain, i);
    }
  }

  /** Following the parent map from the last node of a chain to its first one, and
      turning the list round, gives back the chain. */
  method Unwind(parent: map<Id, Id>, root: Id, last: Id, ghost arcs: Arcs, ghost chain: seq<Id>) returns (path: seq<Id>)
    requires IsChain(arcs, parent, chain) && chain[0] == root && chain[|chain| - 1] == last
    ensures path == chain
  {
    var back, cur := [], last;
    ghost var k := |chain| - 1;
    while cur != root
      invariant 0 <= k < |chain| && cur == chain[k]
      invariant |back| == |chain| - 1 - k
      invariant forall i :: 0 <= i < |back| ==> back[i] == chain[|chain| - 1 - i]
      decreases k
    {
      assert Parented(parent, chain, k);
      back := back + [cur];
      cur := parent[cur];
      k := k - 1;
    }
    back := back + [root];
    path := [];
    for i := |back| downto 0
      invariant |path| == |back| - i
      invariant forall j :: 0 <= j < |path| ==> path[j] == back[|back| - 1 - j]
    {
      path := path + [back[i]];
    }
  }
}
