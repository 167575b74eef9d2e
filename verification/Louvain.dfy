/** internal/analysis/communities.go, the local-move phase of DetectCommunities. */
module Louvain {
  import opened Basics
  import opened Reachability
  import opened Paths
  import opened CodeGraph
  import opened Sums
  import opened Modularity
  import opened WeightedGraph

  datatype State = State(
    comm: map<Id, Id>,
    commNodes: map<Id, seq<Id>>,
    sigmaIn: map<Id, real>,
    sigmaTot: map<Id, real>)

  // ---------------------------------------------------------------- what every move keeps

  /** comm and commNodes are inverse to each other and partition the nodes; no community is empty. */
  ghost predicate Partition(nodes: set<Id>, comm: map<Id, Id>, commNodes: map<Id, seq<Id>>)
  {
    && comm.Keys == nodes
    && (forall x :: x in nodes ==> comm[x] in commNodes && x in commNodes[comm[x]])
    && (forall c :: c in commNodes ==> commNodes[c] != [] && NoRepeats(commNodes[c]))
    && (forall c, x :: c in commNodes && x in commNodes[c] ==> x in nodes && comm[x] == c)
  }

  /** m gives f's value for each of the keys, absent entries counting as zero. */
  ghost predicate Figures(m: map<Id, real>, keys: set<Id>, f: Id -> real)
  {
    forall c :: c in keys ==> GetReal(m, c) == f(c)
  }

  ghost function Inners(g: Weighted, comm: Clustering): Id -> real
  {
    c => Inner(g, comm, c)
  }

  /** sigmaTot holds each community's degree total. */
  ghost predicate Totals(g: Weighted, s: State)
  {
    s.sigmaTot.Keys == s.commNodes.Keys && Figures(s.sigmaTot, s.commNodes.Keys, Tots(g, s.comm))
  }

  /** sigmaIn holds each community's inner weight. */
  ghost predicate InnerTotals(g: Weighted, s: State)
  {
    Figures(s.sigmaIn, s.commNodes.Keys, Inners(g, s.comm))
  }

  ghost predicate NoSelfEdges(g: Weighted)
  {
    forall x :: x in g.nodes ==> W(g, x, x) == 0.0
  }

  ghost predicate Consistent(g: Weighted, s: State)
  {
    && Partition(g.nodes, s.comm, s.commNodes)
    && Totals(g, s)
    && s.sigmaIn.Keys <= s.commNodes.Keys
    && (NoSelfEdges(g) ==> InnerTotals(g, s))
  }

  ghost function Recorded(m: map<Id, real>): Id -> real
  {
    c => GetReal(m, c)
  }

  /** In every consistent state the recorded degree totals add up to twice the total weight. */
  lemma DegreeTotalsConserved(g: Weighted, s: State)
    requires Consistent(g, s)
    ensures Sum(s.sigmaTot.Keys, Recorded(s.sigmaTot)) == Mass(g)
  {
    hide Tot, Mass, Sum;
    TotsAddUp(g, s.comm, s.sigmaTot.Keys);
    SumCong(s.sigmaTot.Keys, Recorded(s.sigmaTot), Tots(g, s.comm));
  }

  // ---------------------------------------------------------------- the starting state

  function Singletons(nodes: set<Id>, degree: map<Id, real>): State
  {
    State(map x | x in nodes :: x, map x | x in nodes :: [x], map[], map x | x in nodes :: GetReal(degree, x))
  }

  lemma SingletonTot(g: Weighted, comm: map<Id, Id>, c: Id)
    requires c in g.nodes && forall x :: x in g.nodes ==> Of(comm, x) == x
    ensures Tot(g, comm, c) == Deg(g, c)
    ensures Inner(g, comm, c) == W(g, c, c)
  {
    hide Sum, Deg;
    SumPick(g.nodes, Members(Degrees(g), comm, c), c);
    SumZero(g.nodes - {c}, Members(Degrees(g), comm, c));
    var none := (i: Id, j: Id) => 0.0;
    Sum2None(g.nodes, none);
    Sum2Point(g.nodes, none, Inside(Weight(g), comm, c), c, c);
  }

  lemma StartPartition(nodes: set<Id>, degree: map<Id, real>)
    ensures var s := Singletons(nodes, degree); Partition(nodes, s.comm, s.commNodes)
  {
  }

  lemma StartTotals(g: Weighted, degree: map<Id, real>)
    requires DegreesOf(g, degree)
    ensures Totals(g, Singletons(g.nodes, degree))
  {
    var s := Singletons(g.nodes, degree);
    forall c | c in s.commNodes
      ensures GetReal(s.sigmaTot, c) == Tots(g, s.comm)(c)
    {
      SingletonTot(g, s.comm, c);
    }
  }

  lemma StartInner(g: Weighted, degree: map<Id, real>, c: Id)
    requires c in g.nodes
    ensures var s := Singletons(g.nodes, degree); GetReal(s.sigmaIn, c) == Inner(g, s.comm, c) <==> W(g, c, c) == 0.0
  {
    SingletonTot(g, Singletons(g.nodes, degree).comm, c);
  }

  /** The start is consistent, and its sigmaIn is right exactly when there are no self-edges. */
  lemma StartConsistent(g: Weighted, degree: map<Id, real>)
    requires DegreesOf(g, degree)
    ensures Consistent(g, Singletons(g.nodes, degree))
    ensures InnerTotals(g, Singletons(g.nodes, degree)) <==> NoSelfEdges(g)
  {
    hide Tot, Inner, Deg, Partition, DegreesOf;
    StartPartition(g.nodes, degree);
    StartTotals(g, degree);
    var s := Singletons(g.nodes, degree);
    assert s.commNodes.Keys == g.nodes;
    forall c | c in g.nodes
      ensures GetReal(s.sigmaIn, c) == Inners(g, s.comm)(c) <==> W(g, c, c) == 0.0
    {
      StartInner(g, degree, c);
    }
  }

  // ---------------------------------------------------------------- moving one node

  /** The first occurrence of x removed. */
  function Without(list: seq<Id>, x: Id): seq<Id>
  {
    if list == [] then [] else if list[0] == x then list[1..] else [list[0]] + Without(list[1..], x)
  }

  lemma {:induction false} WithoutItems(list: seq<Id>, x: Id)
    requires NoRepeats(list)
    ensures NoRepeats(Without(list, x))
    ensures forall y :: y in Without(list, x) <==> y in list && y != x
    decreases |list|
  {
    if list != [] {
      var tail := list[1..];
      assert forall y :: y in list <==> y == list[0] || y in tail;
      WithoutItems(tail, x);
      if list[0] != x {
        assert list[0] !in tail;
        assert forall y :: y in Without(list, x) <==> y == list[0] || y in Without(tail, x);
      }
    }
  }

  function MoveNodes(commNodes: map<Id, seq<Id>>, x: Id, from: Id, to: Id): map<Id, seq<Id>>
    requires from in commNodes && to in commNodes
  {
    var taken := commNodes[from := Without(commNodes[from], x)];
    var given := taken[to := taken[to] + [x]];
    if given[from] == [] then given - {from} else given
  }

  lemma MovedEntries(commNodes: map<Id, seq<Id>>, x: Id, from: Id, to: Id)
    requires from in commNodes && to in commNodes && from != to
    ensures var moved := MoveNodes(commNodes, x, from, to);
      && to in moved && moved[to] == commNodes[to] + [x]
      && (from in moved <==> Without(commNodes[from], x) != [])
      && (from in moved ==> moved[from] == Without(commNodes[from], x))
      && (forall d :: d != from && d != to ==> (d in moved <==> d in commNodes) && (d in moved ==> moved[d] == commNodes[d]))
  {
  }

  lemma AppendItem(list: seq<Id>, x: Id)
    requires NoRepeats(list) && x !in list
    ensures NoRepeats(list + [x]) && forall y :: y in list + [x] <==> y in list || y == x
  {
  }

  lemma MovedMember(nodes: set<Id>, comm: map<Id, Id>, commNodes: map<Id, seq<Id>>, x: Id, c: Id, y: Id)
    requires Partition(nodes, comm, commNodes) && x in nodes && c in commNodes && c != comm[x] && y in nodes
    ensures var moved := MoveNodes(commNodes, x, comm[x], c);
      comm[x := c][y] in moved && y in moved[comm[x := c][y]]
  {
    WithoutItems(commNodes[comm[x]], x);
    AppendItem(commNodes[c], x);
    MovedEntries(commNodes, x, comm[x], c);
    hide MoveNodes, NoRepeats, Without;
    assert comm[y] in commNodes && y in commNodes[comm[y]];
  }

  lemma MovePartition(nodes: set<Id>, comm: map<Id, Id>, commNodes: map<Id, seq<Id>>, x: Id, c: Id)
    requires Partition(nodes, comm, commNodes) && x in nodes && c in commNodes && c != comm[x]
    ensures Partition(nodes, comm[x := c], MoveNodes(commNodes, x, comm[x], c))
  {
    var from := comm[x];
    var moved, comm' := MoveNodes(commNodes, x, from, c), comm[x := c];
    WithoutItems(commNodes[from], x);
    AppendItem(commNodes[c], x);
    MovedEntries(commNodes, x, from, c);
    hide MoveNodes, NoRepeats, Without;
    forall y | y in nodes
      ensures comm'[y] in moved && y in moved[comm'[y]]
    {
      MovedMember(nodes, comm, commNodes, x, c, y);
    }
    forall d, y | d in moved && y in moved[d]
      ensures y in nodes && comm'[y] == d
    {
      if d == c {
        assert y == x || y in commNodes[c];
      }
    }
    forall d | d in moved
      ensures moved[d] != [] && NoRepeats(moved[d])
    {
      assert d in commNodes;
    }
  }

  /** A per-community figure after x went from one community to another; an emptied one is deleted. */
  function MoveFigure(m: map<Id, real>, from: Id, lost: real, to: Id, won: real, left: seq<Id>): map<Id, real>
  {
    var taken := m[from := GetReal(m, from) - lost];
    var given := taken[to := GetReal(taken, to) + won];
    if left == [] then given - {from} else given
  }

  lemma FiguresMoved(m: map<Id, real>, keys: set<Id>, f: Id -> real, f': Id -> real,
                     from: Id, lost: real, to: Id, won: real, left: seq<Id>)
    requires from in keys && to in keys && from != to && Figures(m, keys, f)
    requires Shifted(f, f', from, lost, to, won)
    ensures Figures(MoveFigure(m, from, lost, to, won, left), Kept(keys, from, left), f')
  {
  }

  /** f' is f with `lost` taken from one community and `won` given to another. */
  ghost predicate Shifted(f: Id -> real, f': Id -> real, from: Id, lost: real, to: Id, won: real)
  {
    forall d :: f'(d) == if d == to then f(d) + won else if d == from then f(d) - lost else f(d)
  }

  function Kept(keys: set<Id>, from: Id, left: seq<Id>): set<Id>
  {
    if left == [] then keys - {from} else keys
  }

  lemma KeysMoved(m: map<Id, real>, from: Id, lost: real, to: Id, won: real, left: seq<Id>)
    requires from != to
    ensures MoveFigure(m, from, lost, to, won, left).Keys == Kept(m.Keys + {from, to}, from, left)
  {
  }

  /** The state after moving x to community c, the node's degree being ki. */
  function MoveState(s: State, x: Id, c: Id, ki: real, kiIn: real, kiOut: real): State
    requires x in s.comm && s.comm[x] in s.commNodes && c in s.commNodes
  {
    var from := s.comm[x];
    var left := Without(s.commNodes[from], x);
    State(s.comm[x := c],
          MoveNodes(s.commNodes, x, from, c),
          MoveFigure(s.sigmaIn, from, 2.0 * kiIn, c, 2.0 * kiOut, left),
          MoveFigure(s.sigmaTot, from, ki, c, ki, left))
  }

  lemma MovedKeys(commNodes: map<Id, seq<Id>>, x: Id, from: Id, to: Id)
    requires from in commNodes && to in commNodes && from != to
    ensures MoveNodes(commNodes, x, from, to).Keys == Kept(commNodes.Keys, from, Without(commNodes[from], x))
  {
  }

  lemma TotsShift(g: Weighted, comm: Clustering, x: Id, c: Id)
    requires x in g.nodes && x in comm && c != comm[x]
    ensures Shifted(Tots(g, comm), Tots(g, comm[x := c]), comm[x], Deg(g, x), c, Deg(g, x))
  {
    forall d
      ensures Tots(g, comm[x := c])(d) == if d == c then Tots(g, comm)(d) + Deg(g, x)
        else if d == comm[x] then Tots(g, comm)(d) - Deg(g, x) else Tots(g, comm)(d)
    {
      TotAfterMove(g, comm, x, c, d);
    }
  }

  lemma InnersShift(g: Weighted, comm: Clustering, x: Id, c: Id, lost: real, won: real)
    requires Symmetric(g) && W(g, x, x) == 0.0 && x in g.nodes && x in comm && c != comm[x]
    requires lost == LinkTo(g, comm, x, comm[x]) && won == LinkTo(g, comm, x, c)
    ensures Shifted(Inners(g, comm), Inners(g, comm[x := c]), comm[x], 2.0 * lost, c, 2.0 * won)
  {
    hide Inner, LinkTo;
    forall d
      ensures Inners(g, comm[x := c])(d) == if d == c then Inners(g, comm)(d) + 2.0 * won
        else if d == comm[x] then Inners(g, comm)(d) - 2.0 * lost else Inners(g, comm)(d)
    {
      InnerAfterMove(g, comm, x, c, d);
    }
  }

  /** Both figures follow any functions that shift with the move. */
  lemma FiguresFollow(s: State, x: Id, c: Id, ki: real, kiIn: real, kiOut: real, f: Id -> real, f': Id -> real)
    requires x in s.comm && s.comm[x] in s.commNodes && c in s.commNodes && c != s.comm[x]
    ensures var t := MoveState(s, x, c, ki, kiIn, kiOut);
      && (Figures(s.sigmaTot, s.commNodes.Keys, f) && Shifted(f, f', s.comm[x], ki, c, ki)
          ==> Figures(t.sigmaTot, t.commNodes.Keys, f'))
      && (Figures(s.sigmaIn, s.commNodes.Keys, f) && Shifted(f, f', s.comm[x], 2.0 * kiIn, c, 2.0 * kiOut)
          ==> Figures(t.sigmaIn, t.commNodes.Keys, f'))
  {
    var from, keys := s.comm[x], s.commNodes.Keys;
    var left := Without(s.commNodes[from], x);
    MovedKeys(s.commNodes, x, from, c);
    if Figures(s.sigmaTot, keys, f) && Shifted(f, f', from, ki, c, ki) {
      FiguresMoved(s.sigmaTot, keys, f, f', from, ki, c, ki, left);
    }
    if Figures(s.sigmaIn, keys, f) && Shifted(f, f', from, 2.0 * kiIn, c, 2.0 * kiOut) {
      FiguresMoved(s.sigmaIn, keys, f, f', from, 2.0 * kiIn, c, 2.0 * kiOut, left);
    }
  }

  lemma KeysFollow(s: State, x: Id, c: Id, ki: real, kiIn: real, kiOut: real)
    requires x in s.comm && s.comm[x] in s.commNodes && c in s.commNodes && c != s.comm[x]
    requires s.sigmaTot.Keys == s.commNodes.Keys && s.sigmaIn.Keys <= s.commNodes.Keys
    ensures var t := MoveState(s, x, c, ki, kiIn, kiOut);
      t.sigmaTot.Keys == t.commNodes.Keys && t.sigmaIn.Keys <= t.commNodes.Keys
  {
    var from, keys := s.comm[x], s.commNodes.Keys;
    var left := Without(s.commNodes[from], x);
    MovedKeys(s.commNodes, x, from, c);
    KeysMoved(s.sigmaTot, from, ki, c, ki, left);
    KeysMoved(s.sigmaIn, from, 2.0 * kiIn, c, 2.0 * kiOut, left);
    assert keys + {from, c} == keys;
  }

  lemma MoveTotals(g: Weighted, s: State, x: Id, c: Id, kiIn: real, kiOut: real)
    requires x in g.nodes && x in s.comm && s.comm[x] in s.commNodes && c in s.commNodes && c != s.comm[x]
    requires Totals(g, s) && s.sigmaIn.Keys <= s.commNodes.Keys
    ensures Totals(g, MoveState(s, x, c, Deg(g, x), kiIn, kiOut))
  {
    KeysFollow(s, x, c, Deg(g, x), kiIn, kiOut);
    TotsShift(g, s.comm, x, c);
    FiguresFollow(s, x, c, Deg(g, x), kiIn, kiOut, Tots(g, s.comm), Tots(g, s.comm[x := c]));
  }

  lemma MoveInner(g: Weighted, s: State, x: Id, c: Id, ki: real, kiIn: real, kiOut: real)
    requires x in g.nodes && x in s.comm && s.comm[x] in s.commNodes && c in s.commNodes && c != s.comm[x]
    requires Symmetric(g) && W(g, x, x) == 0.0 && InnerTotals(g, s)
    requires kiIn == LinkTo(g, s.comm, x, s.comm[x]) && kiOut == LinkTo(g, s.comm, x, c)
    ensures InnerTotals(g, MoveState(s, x, c, ki, kiIn, kiOut))
  {
    InnersShift(g, s.comm, x, c, kiIn, kiOut);
    FiguresFollow(s, x, c, ki, kiIn, kiOut, Inners(g, s.comm), Inners(g, s.comm[x := c]));
  }

  /** Moving a node to another recorded community keeps every invariant. */
  lemma MoveKeepsConsistent(g: Weighted, s: State, x: Id, c: Id, ki: real, kiIn: real, kiOut: real)
    requires WellFormed(g) && Consistent(g, s) && x in g.nodes && c in s.commNodes && c != s.comm[x]
    requires ki == Deg(g, x) && kiIn == LinkTo(g, s.comm, x, s.comm[x]) && kiOut == LinkTo(g, s.comm, x, c)
    ensures Consistent(g, MoveState(s, x, c, ki, kiIn, kiOut))
  {
    MovePartition(g.nodes, s.comm, s.commNodes, x, c);
    MoveTotals(g, s, x, c, kiIn, kiOut);
    KeysFollow(s, x, c, ki, kiIn, kiOut);
    if NoSelfEdges(g) {
      MoveInner(g, s, x, c, ki, kiIn, kiOut);
    }
  }

  // ---------------------------------------------------------------- choosing a community

  ghost function Links(g: Weighted, comm: Clustering, x: Id): Id -> real
  {
    c => LinkTo(g, comm, x, c)
  }

  function NeighborsOf(g: Weighted, x: Id): map<Id, real>
  {
    if x in g.nb then g.nb[x] else map[]
  }

  /** x's weights towards community c, those of the neighbours still left to visit set to zero. */
  ghost function LinkCounted(g: Weighted, comm: Clustering, x: Id, c: Id, left: set<Id>): Id -> real
  {
    j => if j in left || Of(comm, j) != c then 0.0 else W(g, x, j)
  }

  ghost function LinksCounted(g: Weighted, comm: Clustering, x: Id, left: set<Id>): Id -> real
  {
    c => Sum(g.nodes, LinkCounted(g, comm, x, c, left))
  }

  lemma LinksStart(g: Weighted, comm: Clustering, x: Id, c: Id)
    ensures LinksCounted(g, comm, x, NeighborsOf(g, x).Keys)(c) == 0.0
  {
    SumZero(g.nodes, LinkCounted(g, comm, x, c, NeighborsOf(g, x).Keys));
  }

  lemma LinksStep(g: Weighted, comm: Clustering, x: Id, c: Id, left: set<Id>, j: Id)
    requires j in g.nodes && j in left
    ensures LinksCounted(g, comm, x, left - {j})(c) ==
      LinksCounted(g, comm, x, left)(c) + (if Of(comm, j) == c then W(g, x, j) else 0.0)
  {
    SumPoint(g.nodes, LinkCounted(g, comm, x, c, left), LinkCounted(g, comm, x, c, left - {j}), j);
  }

  lemma LinksEnd(g: Weighted, comm: Clustering, x: Id, c: Id)
    ensures LinksCounted(g, comm, x, {})(c) == Links(g, comm, x)(c)
  {
    SumCong(g.nodes, LinkCounted(g, comm, x, c, {}), Toward(Weight(g), comm, x, c));
  }

  ghost predicate Agrees(m: map<Id, real>, f: Id -> real)
  {
    forall c :: GetReal(m, c) == f(c)
  }

  function Credit(m: map<Id, real>, c: Id, w: real): (r: map<Id, real>)
    ensures r.Keys == m.Keys + {c}
    ensures forall d :: GetReal(r, d) == if d == c then GetReal(m, d) + w else GetReal(m, d)
  {
    m[c := GetReal(m, c) + w]
  }

  lemma AgreesNext(g: Weighted, comm: Clustering, x: Id, left: set<Id>, j: Id, m: map<Id, real>, w: real)
    requires j in g.nodes && j in left && Agrees(m, LinksCounted(g, comm, x, left)) && w == W(g, x, j)
    ensures Agrees(Credit(m, Of(comm, j), w), LinksCounted(g, comm, x, left - {j}))
  {
    forall c
      ensures GetReal(Credit(m, Of(comm, j), w), c) == LinksCounted(g, comm, x, left - {j})(c)
    {
      LinksStep(g, comm, x, c, left, j);
    }
  }

  /** A community other than x's own that contains a neighbour of x. */
  ghost predicate Candidate(g: Weighted, comm: Clustering, x: Id, c: Id)
  {
    x in comm && c != comm[x] && c in CommunitiesOf(comm, NeighborsOf(g, x).Keys)
  }

  ghost function CommunitiesOf(comm: Clustering, s: set<Id>): set<Id>
  {
    set j | j in s :: Of(comm, j)
  }

  lemma OneMore(comm: Clustering, row: set<Id>, remaining: set<Id>, j: Id)
    requires j in remaining && remaining <= row
    ensures CommunitiesOf(comm, row - (remaining - {j})) == CommunitiesOf(comm, row - remaining) + {Of(comm, j)}
  {
    assert row - (remaining - {j}) == (row - remaining) + {j};
  }

  /** The weight from x to each neighbouring community, neighbours taken in any order. */
  method CommunityWeights(g: Weighted, comm: Clustering, x: Id) returns (weights: map<Id, real>)
    requires WellFormed(g)
    ensures Agrees(weights, Links(g, comm, x))
    ensures weights.Keys == CommunitiesOf(comm, NeighborsOf(g, x).Keys)
  {
    hide Agrees, CommunitiesOf, LinksCounted, Links;
    weights := map[];
    var row := NeighborsOf(g, x);
    var remaining := row.Keys;
    AgreesStart(g, comm, x);
    NoCommunities(comm, row.Keys);
    while remaining != {}
      invariant remaining <= row.Keys
      invariant Agrees(weights, LinksCounted(g, comm, x, remaining))
      invariant weights.Keys == CommunitiesOf(comm, row.Keys - remaining)
      decreases remaining
    {
      var j :| j in remaining;
      var w := row[j];
      AgreesNext(g, comm, x, remaining, j, weights, w);
      OneMore(comm, row.Keys, remaining, j);
      weights := Credit(weights, Of(comm, j), w);
      remaining := remaining - {j};
    }
    assert row.Keys - {} == row.Keys;
    AgreesEnd(g, comm, x, weights);
  }

  lemma NoCommunities(comm: Clustering, row: set<Id>)
    ensures CommunitiesOf(comm, row - row) == {}
  {
  }

  lemma AgreesStart(g: Weighted, comm: Clustering, x: Id)
    ensures Agrees(map[], LinksCounted(g, comm, x, NeighborsOf(g, x).Keys))
  {
    forall c
      ensures 0.0 == LinksCounted(g, comm, x, NeighborsOf(g, x).Keys)(c)
    {
      LinksStart(g, comm, x, c);
    }
  }

  lemma AgreesEnd(g: Weighted, comm: Clustering, x: Id, m: map<Id, real>)
    requires Agrees(m, LinksCounted(g, comm, x, {}))
    ensures Agrees(m, Links(g, comm, x))
  {
    forall c
      ensures GetReal(m, c) == Links(g, comm, x)(c)
    {
      LinksEnd(g, comm, x, c);
    }
  }

  // ---------------------------------------------------------------- the accepted move

  /** The code's expression for joining a community: weight to it less the predicted share. */
  function Pull(w: real, sigma: real, ki: real, totalWeight: real): real
    requires totalWeight != 0.0
  {
    w - sigma * ki / (2.0 * totalWeight)
  }

  lemma PullIsExcess(g: Weighted, comm: Clustering, x: Id, c: Id, w: real, sigma: real, ki: real, totalWeight: real)
    requires totalWeight != 0.0 && totalWeight == Mass(g) / 2.0
    requires w == LinkTo(g, comm, x, c) && sigma == Tot(g, comm, c) && ki == Deg(g, x)
    ensures Pull(w, sigma, ki, totalWeight) == LinkTo(g, comm, x, c) - Share(g, x, Tot(g, comm, c))
  {
    PortionCommutes(sigma, ki, Mass(g));
  }

  /** c is a neighbouring community of positive gain and no other has a larger one. */
  ghost predicate BestMove(g: Weighted, comm: Clustering, x: Id, c: Id)
  {
    && Candidate(g, comm, x, c) && Gain(g, comm, x, c) > 0.0
    && (forall d :: Candidate(g, comm, x, d) ==> Gain(g, comm, x, c) >= Gain(g, comm, x, d))
  }

  /** No neighbouring community has a positive gain. */
  ghost predicate Settled(g: Weighted, comm: Clustering, x: Id)
  {
    forall d :: Candidate(g, comm, x, d) ==> Gain(g, comm, x, d) <= 0.0
  }

  ghost function Gains(g: Weighted, comm: Clustering, x: Id): Id -> real
    requires x in comm
  {
    c => Gain(g, comm, x, c)
  }

  /** What the scan has found among the communities already compared, f giving their gains. */
  ghost predicate BestSoFar(f: Id -> real, own: Id, seen: set<Id>, best: Id, bestGain: real)
  {
    && (best == own ==> bestGain == 0.0)
    && (best != own ==> best in seen && bestGain == f(best) && bestGain > 0.0)
    && (forall d :: d in seen && d != own ==> f(d) <= bestGain)
  }

  function CodeGain(weights: map<Id, real>, sigmaTot: map<Id, real>, ki: real, totalWeight: real, removeDelta: real, c: Id): real
    requires totalWeight != 0.0
  {
    Pull(GetReal(weights, c), GetReal(sigmaTot, c), ki, totalWeight) - removeDelta
  }

  /** The scan over the neighbouring communities, in any order. */
  method ScanCommunities(own: Id, weights: map<Id, real>, sigmaTot: map<Id, real>, ki: real, totalWeight: real,
                         removeDelta: real, ghost f: Id -> real)
    returns (best: Id, bestGain: real)
    requires totalWeight != 0.0
    requires forall c :: c in weights && c != own ==> CodeGain(weights, sigmaTot, ki, totalWeight, removeDelta, c) == f(c)
    ensures BestSoFar(f, own, weights.Keys, best, bestGain)
  {
    best, bestGain := own, 0.0;
    var remaining := weights.Keys;
    while remaining != {}
      invariant remaining <= weights.Keys
      invariant BestSoFar(f, own, weights.Keys - remaining, best, bestGain)
      decreases remaining
    {
      var c :| c in remaining;
      if c != own {
        var gain := CodeGain(weights, sigmaTot, ki, totalWeight, removeDelta, c);
        if gain > bestGain {
          bestGain := gain;
          best := c;
        }
      }
      remaining := remaining - {c};
    }
  }

  method BestCommunity(g: Weighted, comm: Clustering, sigmaTot: map<Id, real>, x: Id, weights: map<Id, real>, ki: real, totalWeight: real)
    returns (best: Id)
    requires x in comm && totalWeight != 0.0 && totalWeight == Mass(g) / 2.0 && ki == Deg(g, x)
    requires Agrees(weights, Links(g, comm, x)) && weights.Keys == CommunitiesOf(comm, NeighborsOf(g, x).Keys)
    requires Figures(sigmaTot, weights.Keys + {comm[x]}, Tots(g, comm))
    ensures if best == comm[x] then Settled(g, comm, x) else BestMove(g, comm, x, best)
  {
    var own := comm[x];
    var removeDelta := Pull(GetReal(weights, own), GetReal(sigmaTot, own), ki, totalWeight);
    GainsComputed(g, comm, sigmaTot, x, weights, ki, totalWeight, removeDelta);
    var bestGain;
    best, bestGain := ScanCommunities(own, weights, sigmaTot, ki, totalWeight, removeDelta, Gains(g, comm, x));
    Verdict(g, comm, x, weights.Keys, best, bestGain);
  }

  lemma GainsComputed(g: Weighted, comm: Clustering, sigmaTot: map<Id, real>, x: Id, weights: map<Id, real>, ki: real,
                      totalWeight: real, removeDelta: real)
    requires x in comm && totalWeight != 0.0 && totalWeight == Mass(g) / 2.0 && ki == Deg(g, x)
    requires Agrees(weights, Links(g, comm, x)) && Figures(sigmaTot, weights.Keys + {comm[x]}, Tots(g, comm))
    requires removeDelta == Pull(GetReal(weights, comm[x]), GetReal(sigmaTot, comm[x]), ki, totalWeight)
    ensures forall c :: c in weights ==> CodeGain(weights, sigmaTot, ki, totalWeight, removeDelta, c) == Gains(g, comm, x)(c)
  {
    forall c | c in weights
      ensures CodeGain(weights, sigmaTot, ki, totalWeight, removeDelta, c) == Gains(g, comm, x)(c)
    {
      CodeGainIsGain(g, comm, sigmaTot, x, weights, ki, totalWeight, c);
    }
  }

  lemma Verdict(g: Weighted, comm: Clustering, x: Id, seen: set<Id>, best: Id, bestGain: real)
    requires x in comm && seen == CommunitiesOf(comm, NeighborsOf(g, x).Keys)
    requires BestSoFar(Gains(g, comm, x), comm[x], seen, best, bestGain)
    ensures if best == comm[x] then Settled(g, comm, x) else BestMove(g, comm, x, best)
  {
    var f := Gains(g, comm, x);
    forall d | Candidate(g, comm, x, d)
      ensures Gain(g, comm, x, d) <= bestGain
    {
      assert f(d) <= bestGain;
    }
    if best != comm[x] {
      assert f(best) == bestGain;
    }
  }

  lemma CodeGainIsGain(g: Weighted, comm: Clustering, sigmaTot: map<Id, real>, x: Id, weights: map<Id, real>, ki: real, totalWeight: real, c: Id)
    requires x in comm && totalWeight != 0.0 && totalWeight == Mass(g) / 2.0 && ki == Deg(g, x)
    requires Agrees(weights, Links(g, comm, x)) && c in weights
    requires Figures(sigmaTot, weights.Keys + {comm[x]}, Tots(g, comm))
    ensures var removeDelta := Pull(GetReal(weights, comm[x]), GetReal(sigmaTot, comm[x]), ki, totalWeight);
      CodeGain(weights, sigmaTot, ki, totalWeight, removeDelta, c) == Gain(g, comm, x, c)
  {
    var own := comm[x];
    assert GetReal(weights, c) == Links(g, comm, x)(c) && GetReal(weights, own) == Links(g, comm, x)(own);
    assert GetReal(sigmaTot, c) == Tots(g, comm)(c) && GetReal(sigmaTot, own) == Tots(g, comm)(own);
    PullIsExcess(g, comm, x, c, GetReal(weights, c), GetReal(sigmaTot, c), ki, totalWeight);
    PullIsExcess(g, comm, x, own, GetReal(weights, own), GetReal(sigmaTot, own), ki, totalWeight);
  }

  /** The community chosen maximises the modularity that a move to a neighbouring community can
      give, on every graph, self-edges included. */
  lemma BestMoveMaximisesModularity(g: Weighted, comm: Clustering, x: Id, c: Id, d: Id)
    requires WellFormed(g) && Mass(g) > 0.0 && x in g.nodes && BestMove(g, comm, x, c) && Candidate(g, comm, x, d)
    ensures Newman(g, comm[x := c]) >= Newman(g, comm[x := d])
  {
    GainRanksModularity(g, comm, x, c, d);
  }

  // ---------------------------------------------------------------- whole runs

  datatype Move = Move(before: Clustering, node: Id, target: Id)

  function After(m: Move): Clustering
  {
    m.before[m.node := m.target]
  }

  ghost predicate Accepted(g: Weighted, m: Move)
  {
    m.node in g.nodes && BestMove(g, m.before, m.node, m.target)
  }

  /** A run of moves from one clustering to another, each of them satisfying ok. */
  ghost predicate RunOf(ok: Move -> bool, start: Clustering, moves: seq<Move>, end: Clustering)
  {
    if moves == [] then start == end
    else
      var last := moves[|moves| - 1];
      RunOf(ok, start, moves[..|moves| - 1], last.before) && ok(last) && end == After(last)
  }

  lemma EmptyRun(ok: Move -> bool, start: Clustering)
    ensures RunOf(ok, start, [], start)
  {
  }

  lemma ExtendRun(ok: Move -> bool, start: Clustering, moves: seq<Move>, m: Move)
    requires RunOf(ok, start, moves, m.before) && ok(m)
    ensures RunOf(ok, start, moves + [m], After(m))
  {
    assert (moves + [m])[..|moves|] == moves;
  }

  ghost function Accepting(g: Weighted): Move -> bool
  {
    m => Accepted(g, m)
  }

  // ---------------------------------------------------------------- visits and passes

  /** A visit is written as a move, of a node that stays to its own community. */
  ghost predicate Moves(v: Move)
  {
    v.node in v.before && v.target != v.before[v.node]
  }

  /** The visited node takes the best move, or stays because none has a positive gain. */
  ghost predicate Visited(g: Weighted, v: Move)
  {
    && v.node in g.nodes && v.node in v.before
    && if Moves(v) then BestMove(g, v.before, v.node, v.target) else Settled(g, v.before, v.node)
  }

  ghost function Visiting(g: Weighted): Move -> bool
  {
    v => Visited(g, v)
  }

  ghost predicate Names(visits: seq<Move>, x: Id)
  {
    exists i :: 0 <= i < |visits| && visits[i].node == x
  }

  /** The visits are to the nodes that are not left, each exactly once. */
  ghost predicate Tour(visits: seq<Move>, nodes: set<Id>, left: set<Id>)
  {
    && (forall i, j :: 0 <= i < j < |visits| ==> visits[i].node != visits[j].node)
    && (forall x {:trigger Names(visits, x)} :: Names(visits, x) <==> x in nodes && x !in left)
  }

  lemma TourNext(visits: seq<Move>, nodes: set<Id>, left: set<Id>, v: Move)
    requires Tour(visits, nodes, left) && v.node in nodes && v.node in left
    ensures Tour(visits + [v], nodes, left - {v.node})
  {
    var more := visits + [v];
    forall i | 0 <= i < |visits|
      ensures visits[i].node != v.node
    {
      assert Names(visits, visits[i].node);
    }
    forall x
      ensures Names(more, x) <==> x in nodes && x !in left - {v.node}
    {
      assert Names(visits, x) <==> x in nodes && x !in left;
      assert more[|visits|].node == v.node;
      if Names(visits, x) {
        var i :| 0 <= i < |visits| && visits[i].node == x;
        assert more[i].node == x;
      }
    }
  }

  /** One pass visits every node of the graph exactly once, from one clustering to another. */
  ghost predicate PassOf(g: Weighted, start: Clustering, visits: seq<Move>, end: Clustering)
  {
    RunOf(Visiting(g), start, visits, end) && Tour(visits, g.nodes, {})
  }

  ghost predicate Improves(visits: seq<Move>)
  {
    exists i :: 0 <= i < |visits| && Moves(visits[i])
  }

  ghost predicate PassesOf(g: Weighted, start: Clustering, passes: seq<seq<Move>>, end: Clustering)
  {
    if passes == [] then start == end
    else
      var front, last := passes[..|passes| - 1], passes[|passes| - 1];
      exists mid {:trigger PassOf(g, mid, last, end)} :: PassesOf(g, start, front, mid) && PassOf(g, mid, last, end)
  }

  lemma ExtendPasses(g: Weighted, start: Clustering, passes: seq<seq<Move>>, mid: Clustering, visits: seq<Move>, end: Clustering)
    requires PassesOf(g, start, passes, mid) && PassOf(g, mid, visits, end)
    ensures PassesOf(g, start, passes + [visits], end)
  {
    hide PassOf;
    var more := passes + [visits];
    assert more[..|more| - 1] == passes;
    assert PassOf(g, mid, more[|more| - 1], end);
  }

  lemma NoPasses(g: Weighted, start: Clustering)
    ensures PassesOf(g, start, [], start)
  {
  }

  /** Every pass but the last moved some node, and the last did not unless it was the tenth. */
  ghost predicate Finished(passes: seq<seq<Move>>)
  {
    && 1 <= |passes| <= 10
    && (forall k :: 0 <= k < |passes| - 1 ==> Improves(passes[k]))
    && (|passes| < 10 ==> !Improves(passes[|passes| - 1]))
  }

  lemma LastVisit(ok: Move -> bool, start: Clustering, visits: seq<Move>, end: Clustering)
    requires RunOf(ok, start, visits, end) && visits != []
    ensures var last := visits[|visits| - 1];
      RunOf(ok, start, visits[..|visits| - 1], last.before) && ok(last) && end == After(last)
  {
  }

  lemma StayingVisit(g: Weighted, v: Move)
    requires Visited(g, v) && !Moves(v)
    ensures After(v) == v.before && Settled(g, v.before, v.node)
  {
    hide Settled, BestMove;
    assert v.before[v.node := v.target] == v.before;
  }

  lemma {:induction false} QuietRun(g: Weighted, start: Clustering, visits: seq<Move>, end: Clustering)
    requires RunOf(Visiting(g), start, visits, end) && !Improves(visits)
    ensures start == end
    ensures forall i :: 0 <= i < |visits| ==> Settled(g, end, visits[i].node)
    decreases |visits|
  {
    hide Settled, BestMove, Moves, Visited, After;
    if visits != [] {
      var n := |visits| - 1;
      var front, last := visits[..n], visits[n];
      LastVisit(Visiting(g), start, visits, end);
      hide RunOf;
      StayingVisit(g, last);
      forall i | 0 <= i < n
        ensures !Moves(front[i])
      {
        assert front[i] == visits[i];
      }
      QuietRun(g, start, front, last.before);
      forall i | 0 <= i < |visits|
        ensures Settled(g, end, visits[i].node)
      {
        if i < n {
          assert front[i] == visits[i];
        }
      }
    }
  }

  /** A pass without a move shows that no node has a gain left. */
  lemma QuietPass(g: Weighted, start: Clustering, visits: seq<Move>, end: Clustering)
    requires PassOf(g, start, visits, end) && !Improves(visits)
    ensures start == end && AllSettled(g, end, g.nodes, {})
  {
    QuietRun(g, start, visits, end);
    hide Settled, Improves, RunOf;
    forall x | x in g.nodes
      ensures Settled(g, end, x)
    {
      assert Names(visits, x);
    }
  }

  /** So if the passes stopped before the tenth, no gain is left. */
  lemma StoppedSettled(g: Weighted, start: Clustering, passes: seq<seq<Move>>, end: Clustering)
    requires PassesOf(g, start, passes, end) && Finished(passes) && |passes| < 10
    ensures AllSettled(g, end, g.nodes, {})
  {
    hide PassOf, Improves;
    var n := |passes| - 1;
    var mid :| PassesOf(g, start, passes[..n], mid) && PassOf(g, mid, passes[n], end);
    QuietPass(g, mid, passes[n], end);
  }

  /** The visits that moved their node. */
  ghost function MovesIn(visits: seq<Move>): seq<Move>
  {
    if visits == [] then []
    else
      var front, last := MovesIn(visits[..|visits| - 1]), visits[|visits| - 1];
      if Moves(last) then front + [last] else front
  }

  lemma {:induction false} MovesInAppend(a: seq<Move>, b: seq<Move>)
    ensures MovesIn(a + b) == MovesIn(a) + MovesIn(b)
    decreases |b|
  {
    if b == [] {
      assert a + b == a;
    } else {
      var n := |b| - 1;
      assert (a + b)[..|a + b| - 1] == a + b[..n];
      MovesInAppend(a, b[..n]);
    }
  }

  lemma {:induction false} RunTrans(ok: Move -> bool, start: Clustering, a: seq<Move>, mid: Clustering, b: seq<Move>, end: Clustering)
    requires RunOf(ok, start, a, mid) && RunOf(ok, mid, b, end)
    ensures RunOf(ok, start, a + b, end)
    decreases |b|
  {
    if b == [] {
      assert a + b == a;
    } else {
      var n := |b| - 1;
      RunTrans(ok, start, a, mid, b[..n], b[n].before);
      assert (a + b)[..|a + b| - 1] == a + b[..n];
    }
  }

  /** Visits that moved nothing can be left out of a run. */
  lemma {:induction false} VisitsAreMoves(g: Weighted, start: Clustering, visits: seq<Move>, end: Clustering)
    requires RunOf(Visiting(g), start, visits, end)
    ensures RunOf(Accepting(g), start, MovesIn(visits), end)
    decreases |visits|
  {
    hide BestMove, Settled, Moves, After;
    if visits == [] {
      EmptyRun(Accepting(g), start);
    } else {
      var front, last := visits[..|visits| - 1], visits[|visits| - 1];
      LastVisit(Visiting(g), start, visits, end);
      hide RunOf;
      VisitsAreMoves(g, start, front, last.before);
      if Moves(last) {
        ExtendRun(Accepting(g), start, MovesIn(front), last);
      } else {
        StayingVisit(g, last);
      }
    }
  }

  /** All moves of all passes form one run of accepted moves. */
  lemma {:induction false} PassesAreMoves(g: Weighted, start: Clustering, passes: seq<seq<Move>>, end: Clustering)
    requires PassesOf(g, start, passes, end)
    ensures RunOf(Accepting(g), start, MovesIn(Concat(passes)), end)
    decreases |passes|
  {
    if passes != [] {
      var n := |passes| - 1;
      var mid :| PassesOf(g, start, passes[..n], mid) && PassOf(g, mid, passes[n], end);
      PassesAreMoves(g, start, passes[..n], mid);
      VisitsAreMoves(g, mid, passes[n], end);
      MovesInAppend(Concat(passes[..n]), passes[n]);
      RunTrans(Accepting(g), start, MovesIn(Concat(passes[..n])), mid, MovesIn(passes[n]), end);
    }
  }

  method RemoveFirst(list: seq<Id>, x: Id) returns (rest: seq<Id>)
    ensures rest == Without(list, x)
  {
    rest := list;
    for i := 0 to |list|
      invariant rest == list && x !in list[..i]
      invariant Without(list, x) == list[..i] + Without(list[i..], x)
    {
      if list[i] == x {
        rest := list[..i] + list[i + 1..];
        assert list[i..][1..] == list[i + 1..];
        return;
      }
      assert list[i..][1..] == list[i + 1..];
      assert list[..i] + ([list[i]] + Without(list[i + 1..], x)) == list[..i + 1] + Without(list[i + 1..], x);
    }
    assert list[..|list|] + [] == list;
  }

  class Clusterer {
    const g: Weighted
    const degree: map<Id, real>
    const totalWeight: real
    var comm: map<Id, Id>
    var commNodes: map<Id, seq<Id>>
    var sigmaIn: map<Id, real>
    var sigmaTot: map<Id, real>

    ghost function Now(): State
      reads this`comm, this`commNodes, this`sigmaIn, this`sigmaTot
    {
      State(comm, commNodes, sigmaIn, sigmaTot)
    }

    ghost predicate Prepared()
    {
      WellFormed(g) && DegreesOf(g, degree) && totalWeight == Mass(g) / 2.0 && totalWeight > 0.0
    }

    constructor (g: Weighted, degree: map<Id, real>, totalWeight: real)
      ensures this.g == g && this.degree == degree && this.totalWeight == totalWeight
      ensures Now() == Singletons(g.nodes, degree)
    {
      this.g, this.degree, this.totalWeight := g, degree, totalWeight;
      comm := map x | x in g.nodes :: x;
      commNodes := map x | x in g.nodes :: [x];
      sigmaIn := map[];
      sigmaTot := map x | x in g.nodes :: GetReal(degree, x);
    }

    /** Moves x between the member lists; tells which members its old community keeps. */
    method MoveMember(x: Id, best: Id) returns (left: seq<Id>)
      requires x in comm && comm[x] in commNodes && best in commNodes && best != comm[x]
      modifies this`comm, this`commNodes
      ensures left == Without(old(commNodes)[old(comm)[x]], x)
      ensures comm == old(comm)[x := best]
      ensures commNodes == MoveNodes(old(commNodes), x, old(comm)[x], best)
    {
      var current := comm[x];
      left := RemoveFirst(commNodes[current], x);
      commNodes := commNodes[current := left];
      comm := comm[x := best];
      commNodes := commNodes[best := commNodes[best] + [x]];
      if commNodes[current] == [] {
        commNodes := commNodes - {current};
      }
    }

    method MoveSigmaIn(current: Id, best: Id, kiIn: real, kiOut: real, left: seq<Id>)
      modifies this`sigmaIn
      ensures sigmaIn == MoveFigure(old(sigmaIn), current, 2.0 * kiIn, best, 2.0 * kiOut, left)
    {
      sigmaIn := sigmaIn[current := GetReal(sigmaIn, current) - 2.0 * kiIn];
      sigmaIn := sigmaIn[best := GetReal(sigmaIn, best) + 2.0 * kiOut];
      if left == [] {
        sigmaIn := sigmaIn - {current};
      }
    }

    method MoveSigmaTot(current: Id, best: Id, ki: real, left: seq<Id>)
      modifies this`sigmaTot
      ensures sigmaTot == MoveFigure(old(sigmaTot), current, ki, best, ki, left)
    {
      sigmaTot := sigmaTot[current := GetReal(sigmaTot, current) - ki];
      sigmaTot := sigmaTot[best := GetReal(sigmaTot, best) + ki];
      if left == [] {
        sigmaTot := sigmaTot - {current};
      }
    }

    /** The bookkeeping of one move. */
    method ApplyMove(x: Id, best: Id, ki: real, kiIn: real, kiOut: real)
      requires x in comm && comm[x] in commNodes && best in commNodes && best != comm[x]
      modifies this`comm, this`commNodes, this`sigmaIn, this`sigmaTot
      ensures Now() == MoveState(old(Now()), x, best, ki, kiIn, kiOut)
    {
      var current := comm[x];
      var left := MoveMember(x, best);
      MoveSigmaIn(current, best, kiIn, kiOut, left);
      MoveSigmaTot(current, best, ki, left);
    }

    /** One accepted move keeps every invariant. */
    method MoveNode(x: Id, best: Id, ki: real, weights: map<Id, real>)
      requires Prepared() && Consistent(g, Now()) && x in g.nodes && best in commNodes && best != comm[x]
      requires ki == Deg(g, x) && Agrees(weights, Links(g, comm, x))
      modifies this`comm, this`commNodes, this`sigmaIn, this`sigmaTot
      ensures Consistent(g, Now())
      ensures comm == old(comm)[x := best]
    {
      var current := comm[x];
      var kiIn, kiOut := GetReal(weights, current), GetReal(weights, best);
      LinksRead(g, comm, x, weights, current);
      LinksRead(g, comm, x, weights, best);
      MoveKeepsConsistent(g, Now(), x, best, ki, kiIn, kiOut);
      ApplyMove(x, best, ki, kiIn, kiOut);
    }

    /** Visits one node: it moves to the best neighbouring community, or none has a positive gain. */
    method Visit(x: Id) returns (moved: bool)
      requires Prepared() && Consistent(g, Now()) && x in g.nodes
      modifies this
      ensures Consistent(g, Now())
      ensures x in comm && comm == After(Move(old(comm), x, comm[x]))
      ensures Visited(g, Move(old(comm), x, comm[x])) && (moved <==> Moves(Move(old(comm), x, comm[x])))
    {
      hide Deg, Mass, Tot, LinkTo, Gain, Inner;
      var weights := CommunityWeights(g, comm, x);
      var ki := GetReal(degree, x);
      FiguresCover(g, Now(), x);
      var best := BestCommunity(g, comm, sigmaTot, x, weights, ki, totalWeight);
      moved := best != comm[x];
      if moved {
        CandidateRecorded(g, Now(), x, best);
        MoveNode(x, best, ki, weights);
      }
    }

    /** One pass: every node is visited exactly once, in any order. */
    method Pass() returns (improved: bool, ghost visits: seq<Move>)
      requires Prepared() && Consistent(g, Now())
      modifies this
      ensures Consistent(g, Now())
      ensures PassOf(g, old(comm), visits, comm) && (improved <==> Improves(visits))
    {
      hide Consistent, Prepared, Visited, Moves, RunOf, Tour, Improves;
      improved, visits := false, [];
      ghost var start := comm;
      var remaining := g.nodes;
      FirstVisit(g, start);
      while remaining != {}
        invariant remaining <= g.nodes
        invariant Consistent(g, Now())
        invariant RunOf(Visiting(g), start, visits, comm) && Tour(visits, g.nodes, remaining)
        invariant improved <==> Improves(visits)
        decreases remaining
      {
        var x :| x in remaining;
        ghost var before := comm;
        var moved := Visit(x);
        if moved {
          improved := true;
        }
        ghost var visit := Move(before, x, comm[x]);
        ExtendRun(Visiting(g), start, visits, visit);
        TourNext(visits, g.nodes, remaining, visit);
        ImprovesNext(visits, visit);
        visits := visits + [visit];
        remaining := remaining - {x};
      }
    }

    /** At most ten passes, stopping after one that moved nothing. */
    method Run() returns (improved: bool, ghost passes: seq<seq<Move>>)
      requires Prepared() && Now() == Singletons(g.nodes, degree)
      modifies this
      ensures Consistent(g, Now())
      ensures PassesOf(g, Singletons(g.nodes, degree).comm, passes, comm) && Finished(passes)
      ensures improved <==> Improves(passes[|passes| - 1])
    {
      hide Consistent, PassesOf, PassOf, Improves, WellFormed, DegreesOf, Mass, Singletons, InnerTotals, NoSelfEdges, Finished;
      ghost var start := comm;
      StartConsistent(g, degree);
      NoPasses(g, start);
      hide Prepared;
      improved, passes := true, [];
      var pass := 0;
      while pass < 10 && improved
        invariant Consistent(g, Now())
        invariant PassesOf(g, start, passes, comm) && |passes| == pass <= 10
        invariant pass == 0 ==> improved
        invariant forall k :: 0 <= k < pass - 1 ==> Improves(passes[k])
        invariant pass > 0 ==> (improved <==> Improves(passes[pass - 1]))
        decreases 10 - pass
      {
        ghost var before, visits := comm, [];
        improved, visits := Pass();
        ExtendPasses(g, start, passes, before, visits, comm);
        passes := passes + [visits];
        pass := pass + 1;
      }
      Stops(passes, improved);
    }
  }

  lemma Stops(passes: seq<seq<Move>>, improved: bool)
    requires 1 <= |passes| <= 10 && forall k :: 0 <= k < |passes| - 1 ==> Improves(passes[k])
    requires improved <==> Improves(passes[|passes| - 1])
    requires |passes| == 10 || !improved
    ensures Finished(passes)
  {
    hide Improves;
  }

  lemma FirstVisit(g: Weighted, start: Clustering)
    ensures RunOf(Visiting(g), start, [], start) && Tour([], g.nodes, g.nodes) && !Improves([])
  {
  }

  lemma ImprovesNext(visits: seq<Move>, v: Move)
    ensures Improves(visits + [v]) <==> Improves(visits) || Moves(v)
  {
    hide Moves;
    var more := visits + [v];
    assert more[|visits|] == v;
    if i :| 0 <= i < |visits| && Moves(visits[i]) {
      assert more[i] == visits[i];
    }
  }

  /** Every node outside `left` has no neighbouring community of positive gain. */
  ghost predicate AllSettled(g: Weighted, comm: Clustering, nodes: set<Id>, left: set<Id>)
  {
    forall x {:trigger Settled(g, comm, x)} :: x in nodes && x !in left ==> Settled(g, comm, x)
  }

  /** Every community a neighbour belongs to is recorded, with its degree total. */
  lemma FiguresCover(g: Weighted, s: State, x: Id)
    requires WellFormed(g) && Partition(g.nodes, s.comm, s.commNodes) && Totals(g, s) && x in g.nodes
    ensures Figures(s.sigmaTot, CommunitiesOf(s.comm, NeighborsOf(g, x).Keys) + {s.comm[x]}, Tots(g, s.comm))
  {
    assert CommunitiesOf(s.comm, NeighborsOf(g, x).Keys) <= s.commNodes.Keys;
  }

  lemma CandidateRecorded(g: Weighted, s: State, x: Id, c: Id)
    requires WellFormed(g) && Partition(g.nodes, s.comm, s.commNodes) && Candidate(g, s.comm, x, c)
    ensures c in s.commNodes
  {
  }

  lemma LinksRead(g: Weighted, comm: Clustering, x: Id, weights: map<Id, real>, c: Id)
    requires Agrees(weights, Links(g, comm, x))
    ensures GetReal(weights, c) == LinkTo(g, comm, x, c)
  {
    assert GetReal(weights, c) == Links(g, comm, x)(c);
  }
}
