/** Walks and reachability in a finite directed graph given by its arcs.
    This is the vocabulary in which the graph analyses are specified; nothing
    here mentions how any of them searches. */
module Reachability {

  type Id = string
  type Arcs = set<(Id, Id)>

  /** A walk of exactly n arcs leads from u to v. */
  ghost predicate Walk(arcs: Arcs, n: nat, u: Id, v: Id)
  {
    if n == 0 then u == v
    else exists w :: (u, w) in arcs && Walk(arcs, n - 1, w, v)
  }

  ghost predicate Reach(arcs: Arcs, u: Id, v: Id)
  {
    exists n: nat :: Walk(arcs, n, u, v)
  }

  /** The two nodes lie on a common closed walk (or are equal). */
  ghost predicate Mutual(arcs: Arcs, u: Id, v: Id)
  {
    Reach(arcs, u, v) && Reach(arcs, v, u)
  }

  /** No arc leaves s. */
  ghost predicate Closed(arcs: Arcs, s: set<Id>)
  {
    forall a, b :: a in s && (a, b) in arcs ==> b in s
  }

  lemma ReachRefl(arcs: Arcs, u: Id)
    ensures Reach(arcs, u, u)
  {
    assert Walk(arcs, 0, u, u);
  }

  lemma ReachCons(arcs: Arcs, u: Id, w: Id, v: Id)
    requires (u, w) in arcs && Reach(arcs, w, v)
    ensures Reach(arcs, u, v)
  {
    var n: nat :| Walk(arcs, n, w, v);
    assert Walk(arcs, n + 1, u, v);
  }

  lemma ReachArc(arcs: Arcs, u: Id, v: Id)
    requires (u, v) in arcs
    ensures Reach(arcs, u, v)
  {
    ReachRefl(arcs, v);
    ReachCons(arcs, u, v, v);
  }

  lemma {:induction false} WalkTrans(arcs: Arcs, n: nat, u: Id, v: Id, m: nat, w: Id)
    requires Walk(arcs, n, u, v) && Walk(arcs, m, v, w)
    ensures Walk(arcs, n + m, u, w)
    decreases n
  {
    if n > 0 {
      var x :| (u, x) in arcs && Walk(arcs, n - 1, x, v);
      WalkTrans(arcs, n - 1, x, v, m, w);
    }
  }

  /** A walk read from its far end. */
  lemma {:induction false} WalkLast(arcs: Arcs, n: nat, u: Id, v: Id) returns (w: Id)
    requires Walk(arcs, n + 1, u, v)
    ensures Walk(arcs, n, u, w) && (w, v) in arcs
    decreases n
  {
    var x :| (u, x) in arcs && Walk(arcs, n, x, v);
    if n == 0 {
      w := u;
    } else {
      w := WalkLast(arcs, n - 1, x, v);
    }
  }

  lemma ReachTrans(arcs: Arcs, u: Id, v: Id, w: Id)
    requires Reach(arcs, u, v) && Reach(arcs, v, w)
    ensures Reach(arcs, u, w)
  {
    var n: nat :| Walk(arcs, n, u, v);
    var m: nat :| Walk(arcs, m, v, w);
    WalkTrans(arcs, n, u, v, m, w);
  }

  /** A closed set is never left, whatever the walk. */
  lemma {:induction false} WalkClosed(arcs: Arcs, s: set<Id>, n: nat, u: Id, v: Id)
    requires Closed(arcs, s) && u in s && Walk(arcs, n, u, v)
    ensures v in s
    decreases n
  {
    if n > 0 {
      var x :| (u, x) in arcs && Walk(arcs, n - 1, x, v);
      WalkClosed(arcs, s, n - 1, x, v);
    }
  }

  lemma ReachClosed(arcs: Arcs, s: set<Id>, u: Id, v: Id)
    requires Closed(arcs, s) && u in s && Reach(arcs, u, v)
    ensures v in s
  {
    var n: nat :| Walk(arcs, n, u, v);
    WalkClosed(arcs, s, n, u, v);
  }

  lemma {:induction false} WalkMono(arcs: Arcs, more: Arcs, n: nat, u: Id, v: Id)
    requires arcs <= more && Walk(arcs, n, u, v)
    ensures Walk(more, n, u, v)
    decreases n
  {
    if n > 0 {
      var x :| (u, x) in arcs && Walk(arcs, n - 1, x, v);
      WalkMono(arcs, more, n - 1, x, v);
    }
  }

  lemma ReachMono(arcs: Arcs, more: Arcs, u: Id, v: Id)
    requires arcs <= more && Reach(arcs, u, v)
    ensures Reach(more, u, v)
  {
    var n: nat :| Walk(arcs, n, u, v);
    WalkMono(arcs, more, n, u, v);
  }

  lemma MutualTrans(arcs: Arcs, u: Id, v: Id, w: Id)
    requires Mutual(arcs, u, v) && Mutual(arcs, v, w)
    ensures Mutual(arcs, u, w)
  {
    ReachTrans(arcs, u, v, w);
    ReachTrans(arcs, w, v, u);
  }
}
