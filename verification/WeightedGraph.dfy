/** internal/analysis/communities.go, the set-up of DetectCommunities: from graph edges to
    symmetric pair weights, neighbour lists, the total weight and weighted degrees. */
module WeightedGraph {
  import opened Reachability
  import opened CodeGraph
  import opened Sums
  import opened Modularity

  function EdgeWeight(k: EdgeKind): real
  {
    match k
    case Calls => 3.0
    case MemberOf => 2.0
    case References => 1.5
    case Implements => 2.0
    case Extends => 2.0
    case Imports => 0.5
    case Instantiates => 1.0
    case _ => 0.0
  }

  // ---------------------------------------------------------------- reference

  /** What one edge adds to the weight of the ordered pair (a, b): an edge counts once in each
      direction, so a self-edge counts twice. */
  ghost function Contribution(symbols: set<Id>, e: Edge, a: Id, b: Id): real
  {
    if e.from !in symbols || e.to !in symbols then 0.0
    else (if e.from == a && e.to == b then EdgeWeight(e.kind) else 0.0)
         + (if e.to == a && e.from == b then EdgeWeight(e.kind) else 0.0)
  }

  ghost function PairWeight(symbols: set<Id>, edges: seq<Edge>, a: Id, b: Id): real
  {
    if edges == [] then 0.0
    else PairWeight(symbols, edges[..|edges| - 1], a, b) + Contribution(symbols, edges[|edges| - 1], a, b)
  }

  lemma {:induction false} PairWeightSymmetric(symbols: set<Id>, edges: seq<Edge>, a: Id, b: Id)
    ensures PairWeight(symbols, edges, a, b) == PairWeight(symbols, edges, b, a)
    decreases |edges|
  {
    if edges != [] {
      PairWeightSymmetric(symbols, edges[..|edges| - 1], a, b);
    }
  }

  /** The weighted graph of a list of edges, as the algorithm needs it. */
  ghost predicate GraphOf(symbols: set<Id>, edges: seq<Edge>, g: Weighted)
  {
    && g.nodes == symbols && WellFormed(g)
    && (forall a, b {:trigger PairWeight(symbols, edges, a, b)} :: W(g, a, b) == PairWeight(symbols, edges, a, b))
  }

  ghost predicate WellFormed(g: Weighted)
  {
    && g.nb.Keys <= g.nodes
    && (forall i, j :: i in g.nb && j in g.nb[i] ==> j in g.nodes && g.nb[i][j] > 0.0)
    && Symmetric(g)
  }

  // ---------------------------------------------------------------- pair weights

  type PairWeights = map<(Id, Id), real>

  function GetPair(weights: PairWeights, a: Id, b: Id): real
  {
    if (a, b) in weights then weights[(a, b)] else 0.0
  }

  function Bump(weights: PairWeights, a: Id, b: Id, w: real): PairWeights
  {
    weights[(a, b) := GetPair(weights, a, b) + w]
  }

  ghost predicate Tallied(symbols: set<Id>, edges: seq<Edge>, weights: PairWeights)
  {
    && (forall p :: p in weights ==> p.0 in symbols && p.1 in symbols && weights[p] > 0.0)
    && (forall a, b {:trigger PairWeight(symbols, edges, a, b)} ::
          GetPair(weights, a, b) == PairWeight(symbols, edges, a, b))
  }

  lemma TallyStep(symbols: set<Id>, edges: seq<Edge>, e: Edge, before: PairWeights, after: PairWeights)
    requires Tallied(symbols, edges, before)
    requires forall p :: p in after ==> p.0 in symbols && p.1 in symbols && after[p] > 0.0
    requires forall a, b :: GetPair(after, a, b) == GetPair(before, a, b) + Contribution(symbols, e, a, b)
    ensures Tallied(symbols, edges + [e], after)
  {
    forall a, b
      ensures GetPair(after, a, b) == PairWeight(symbols, edges + [e], a, b)
    {
      assert (edges + [e])[..|edges|] == edges;
      assert PairWeight(symbols, edges, a, b) == GetPair(before, a, b);
    }
  }

  method TallyWeights(symbols: set<Id>, edges: seq<Edge>) returns (weights: PairWeights)
    ensures Tallied(symbols, edges, weights)
  {
    weights := map[];
    for i := 0 to |edges|
      invariant Tallied(symbols, edges[..i], weights)
    {
      var e := edges[i];
      assert edges[..i + 1] == edges[..i] + [e];
      ghost var before := weights;
      if e.from in symbols && e.to in symbols {
        var w := EdgeWeight(e.kind);
        if w != 0.0 {
          weights := Bump(weights, e.from, e.to, w);
          weights := Bump(weights, e.to, e.from, w);
        }
      }
      TallyStep(symbols, edges[..i], e, before, weights);
    }
    assert edges[..|edges|] == edges;
  }

  // ---------------------------------------------------------------- neighbour lists and totals

  /** The first entries of `weights` that have been copied, as neighbour lists. */
  ghost predicate Copied(weights: PairWeights, done: set<(Id, Id)>, nb: map<Id, map<Id, real>>)
  {
    forall a, b :: (a in nb && b in nb[a]) <==> (a, b) in done && (a, b) in weights
  }

  ghost predicate CopiedValues(weights: PairWeights, nb: map<Id, map<Id, real>>)
  {
    forall a, b :: a in nb && b in nb[a] && (a, b) in weights ==> nb[a][b] == weights[(a, b)]
  }

  method NeighborLists(weights: PairWeights) returns (nb: map<Id, map<Id, real>>)
    ensures Copied(weights, weights.Keys, nb) && CopiedValues(weights, nb)
    ensures forall a :: a in nb ==> exists b :: (a, b) in weights
  {
    nb := map[];
    var remaining := weights.Keys;
    while remaining != {}
      invariant remaining <= weights.Keys
      invariant Copied(weights, weights.Keys - remaining, nb) && CopiedValues(weights, nb)
      invariant forall a :: a in nb ==> exists b :: (a, b) in weights
      decreases remaining
    {
      var k :| k in remaining;
      remaining := remaining - {k};
      if k.0 !in nb {
        nb := nb[k.0 := map[]];
      }
      nb := nb[k.0 := nb[k.0][k.1 := weights[k]]];
      assert k == (k.0, k.1);
    }
  }

  /** The entries that are no longer left to count. */
  ghost function Counted(weights: PairWeights, left: set<(Id, Id)>): (Id, Id) -> real
  {
    (a, b) => if (a, b) in left then 0.0 else GetPair(weights, a, b)
  }

  /** Every entry is added once, in any order; each edge was counted in both directions. */
  method TotalWeight(symbols: set<Id>, weights: PairWeights) returns (total: real)
    requires forall p :: p in weights ==> p.0 in symbols && p.1 in symbols
    ensures total == Sum2(symbols, Counted(weights, {})) / 2.0
  {
    hide Sum2;
    var sum, remaining := 0.0, weights.Keys;
    CountNone(symbols, weights);
    while remaining != {}
      invariant remaining <= weights.Keys
      invariant sum == Sum2(symbols, Counted(weights, remaining))
      decreases remaining
    {
      var k :| k in remaining;
      CountOne(symbols, weights, remaining, k);
      sum := sum + weights[k];
      remaining := remaining - {k};
    }
    total := sum / 2.0;
  }

  lemma CountNone(symbols: set<Id>, weights: PairWeights)
    ensures Sum2(symbols, Counted(weights, weights.Keys)) == 0.0
  {
    Sum2None(symbols, Counted(weights, weights.Keys));
  }

  lemma CountOne(symbols: set<Id>, weights: PairWeights, left: set<(Id, Id)>, k: (Id, Id))
    requires k in left && left <= weights.Keys && k.0 in symbols && k.1 in symbols
    ensures Sum2(symbols, Counted(weights, left - {k})) == Sum2(symbols, Counted(weights, left)) + weights[k]
  {
    var before, after := Counted(weights, left), Counted(weights, left - {k});
    assert k == (k.0, k.1);
    forall i, j | i in symbols && j in symbols && (i != k.0 || j != k.1)
      ensures before(i, j) == after(i, j)
    {
      assert (i, j) != k;
    }
    Sum2Point(symbols, before, after, k.0, k.1);
  }

  lemma CountAll(symbols: set<Id>, weights: PairWeights, g: Weighted)
    requires g.nodes == symbols && forall a, b :: W(g, a, b) == GetPair(weights, a, b)
    ensures Sum2(symbols, Counted(weights, {})) == Mass(g)
  {
    Sum2Cong(symbols, Counted(weights, {}), Weight(g));
  }

  lemma Sum2None(s: set<Id>, h: (Id, Id) -> real)
    requires forall i, j :: i in s && j in s ==> h(i, j) == 0.0
    ensures Sum2(s, h) == 0.0
  {
    forall i | i in s
      ensures RowSums(s, h)(i) == 0.0
    {
      SumZero(s, Row(h, i));
    }
    SumZero(s, RowSums(s, h));
  }

  ghost function RowCounted(g: Weighted, i: Id, left: set<Id>): Id -> real
  {
    j => if j in left then 0.0 else W(g, i, j)
  }

  lemma RowCountOne(g: Weighted, i: Id, left: set<Id>, j: Id)
    requires j in g.nodes && j in left
    ensures Sum(g.nodes, RowCounted(g, i, left - {j})) == Sum(g.nodes, RowCounted(g, i, left)) + W(g, i, j)
  {
    SumPoint(g.nodes, RowCounted(g, i, left), RowCounted(g, i, left - {j}), j);
  }

  lemma RowCountNone(g: Weighted, i: Id, row: map<Id, real>)
    requires row == if i in g.nb then g.nb[i] else map[]
    ensures Sum(g.nodes, RowCounted(g, i, row.Keys)) == 0.0
  {
    SumZero(g.nodes, RowCounted(g, i, row.Keys));
  }

  /** One node's weighted degree, its neighbours taken in any order. */
  method NodeDegree(g: Weighted, i: Id) returns (k: real)
    requires WellFormed(g)
    ensures k == Deg(g, i)
  {
    k := 0.0;
    var row := if i in g.nb then g.nb[i] else map[];
    var remaining := row.Keys;
    RowCountNone(g, i, row);
    while remaining != {}
      invariant remaining <= row.Keys
      invariant k == Sum(g.nodes, RowCounted(g, i, remaining))
      decreases remaining
    {
      var j :| j in remaining;
      RowCountOne(g, i, remaining, j);
      k := k + row[j];
      remaining := remaining - {j};
    }
    SumCong(g.nodes, RowCounted(g, i, {}), Row(Weight(g), i));
  }

  /** Degrees of all symbols; a symbol without an entry counts as zero. */
  ghost predicate DegreesOf(g: Weighted, degree: map<Id, real>)
  {
    forall i :: i in g.nodes ==> GetReal(degree, i) == Deg(g, i)
  }

  function GetReal(m: map<Id, real>, i: Id): real
  {
    if i in m then m[i] else 0.0
  }

  method ComputeDegrees(g: Weighted) returns (degree: map<Id, real>)
    requires WellFormed(g)
    ensures DegreesOf(g, degree)
  {
    degree := map[];
    var remaining := g.nodes;
    while remaining != {}
      invariant remaining <= g.nodes
      invariant forall i :: i in g.nodes - remaining ==> GetReal(degree, i) == Deg(g, i)
      decreases remaining
    {
      var i :| i in remaining;
      remaining := remaining - {i};
      var k := NodeDegree(g, i);
      degree := degree[i := k];
    }
  }

  lemma TalliedGraph(symbols: set<Id>, edges: seq<Edge>, weights: PairWeights, nb: map<Id, map<Id, real>>)
    requires Tallied(symbols, edges, weights)
    requires Copied(weights, weights.Keys, nb) && CopiedValues(weights, nb)
    requires forall a :: a in nb ==> exists b :: (a, b) in weights
    ensures GraphOf(symbols, edges, Weighted(symbols, nb))
    ensures forall a, b :: W(Weighted(symbols, nb), a, b) == GetPair(weights, a, b)
  {
    var g := Weighted(symbols, nb);
    forall a, b
      ensures W(g, a, b) == GetPair(weights, a, b) == PairWeight(symbols, edges, a, b)
    {
    }
    forall a, b
      ensures W(g, a, b) == W(g, b, a)
    {
      PairWeightSymmetric(symbols, edges, a, b);
    }
    forall a, b | a in nb && b in nb[a]
      ensures b in symbols && nb[a][b] > 0.0
    {
      assert (a, b) in weights;
    }
  }

  /** A single relation between two symbols weighs what its kind weighs: calls most, imports least. */
  lemma OneRelation(a: Id, b: Id, k: EdgeKind)
    requires a != b
    ensures PairWeight({a, b}, [PlainEdge(a, b, k)], a, b) ==
      if k == Calls then 3.0
      else if k in {MemberOf, Implements, Extends} then 2.0
      else if k == References then 1.5
      else if k == Instantiates then 1.0
      else if k == Imports then 0.5
      else 0.0
  {
    var edges := [PlainEdge(a, b, k)];
    assert edges[..0] == [];
    assert PairWeight({a, b}, edges, a, b) == PairWeight({a, b}, [], a, b) + Contribution({a, b}, edges[0], a, b);
  }
}
