/** Two results about internal/analysis/communities.go that its name does not suggest: an
    accepted local move can lower modularity, and the modularity it reports is too high. */
module LouvainLimits {
  import opened Reachability
  import opened CodeGraph
  import opened Sums
  import opened Modularity
  import opened WeightedGraph
  import opened Louvain

  // ---------------------------------------------------------------- a run that gets worse

  lemma Sum3(a: Id, b: Id, c: Id, f: Id -> real)
    requires a != b && b != c && a != c
    ensures Sum({a, b, c}, f) == f(a) + f(b) + f(c)
  {
    SumPick({a, b, c}, f, a);
    assert {a, b, c} - {a} == {b, c};
    SumPick({b, c}, f, b);
    assert {b, c} - {b} == {c};
    SumPick({c}, f, c);
    assert {c} - {c} == {};
  }

  /** Three symbols: x is called by a (weight 3) and has the member b (weight 2). */
  ghost predicate ThreeNodes(g: Weighted, a: Id, b: Id, x: Id)
  {
    && a != b && b != x && a != x && g.nodes == {a, b, x} && WellFormed(g)
    && W(g, a, x) == 3.0 && W(g, x, a) == 3.0 && W(g, b, x) == 2.0 && W(g, x, b) == 2.0
    && W(g, a, a) == 0.0 && W(g, b, b) == 0.0 && W(g, x, x) == 0.0 && W(g, a, b) == 0.0 && W(g, b, a) == 0.0
    && NeighborsOf(g, a).Keys == {x} && NeighborsOf(g, x).Keys == {a, b}
  }

  lemma Figures3(g: Weighted, a: Id, b: Id, x: Id)
    requires ThreeNodes(g, a, b, x)
    ensures Deg(g, a) == 3.0 && Deg(g, b) == 2.0 && Deg(g, x) == 5.0 && Mass(g) == 10.0
  {
    hide Sum;
    Sum3(a, b, x, Row(Weight(g), a));
    Sum3(a, b, x, Row(Weight(g), b));
    Sum3(a, b, x, Row(Weight(g), x));
    Sum3(a, b, x, RowSums(g.nodes, Weight(g)));
  }

  /** The gain of moving u to community c, all three nodes' contributions written out. */
  lemma Gain3(g: Weighted, a: Id, b: Id, x: Id, comm: Clustering, c: Id)
    requires ThreeNodes(g, a, b, x)
    ensures Tot(g, comm, c) ==
      (if Of(comm, a) == c then 3.0 else 0.0) + (if Of(comm, b) == c then 2.0 else 0.0) + (if Of(comm, x) == c then 5.0 else 0.0)
    ensures LinkTo(g, comm, a, c) == if Of(comm, x) == c then 3.0 else 0.0
    ensures LinkTo(g, comm, x, c) == (if Of(comm, a) == c then 3.0 else 0.0) + (if Of(comm, b) == c then 2.0 else 0.0)
  {
    Figures3(g, a, b, x);
    hide Sum, Deg;
    Sum3(a, b, x, Members(Degrees(g), comm, c));
    Sum3(a, b, x, Toward(Weight(g), comm, a, c));
    Sum3(a, b, x, Toward(Weight(g), comm, x, c));
  }

  lemma FirstGain(g: Weighted, a: Id, b: Id, x: Id, comm: Clustering)
    requires ThreeNodes(g, a, b, x) && comm == map[a := a, b := b, x := x]
    ensures Gain(g, comm, a, x) == 2.4
  {
    hide Deg, Mass, Tot, LinkTo, WellFormed;
    Figures3(g, a, b, x);
    Gain3(g, a, b, x, comm, a);
    Gain3(g, a, b, x, comm, x);
  }

  lemma SecondGain(g: Weighted, a: Id, b: Id, x: Id, comm: Clustering)
    requires ThreeNodes(g, a, b, x) && comm == map[a := x, b := b, x := x]
    ensures Gain(g, comm, x, b) == 2.0 && Offset(g, x) == -2.5 && Mass(g) == 10.0
  {
    hide Deg, Mass, Tot, LinkTo, WellFormed;
    Figures3(g, a, b, x);
    Gain3(g, a, b, x, comm, b);
    Gain3(g, a, b, x, comm, x);
  }

  lemma OnlyCandidate(g: Weighted, comm: Clustering, x: Id, c: Id)
    requires Candidate(g, comm, x, c) && Gain(g, comm, x, c) > 0.0
    requires forall d :: Candidate(g, comm, x, d) ==> d == c
    ensures BestMove(g, comm, x, c)
  {
    hide Gain, Candidate;
  }

  /** From singletons, a joins x: gain 12/5. */
  lemma FirstMove(g: Weighted, a: Id, b: Id, x: Id, comm: Clustering)
    requires ThreeNodes(g, a, b, x) && comm == map[a := a, b := b, x := x]
    ensures BestMove(g, comm, a, x)
  {
    hide Gain, BestMove, WellFormed;
    FirstGain(g, a, b, x, comm);
    assert x in NeighborsOf(g, a);
    OnlyCandidate(g, comm, a, x);
  }

  /** Then x leaves for b: gain 2, although that lowers modularity by 1/10. */
  lemma SecondMove(g: Weighted, a: Id, b: Id, x: Id, comm: Clustering)
    requires ThreeNodes(g, a, b, x) && comm == map[a := x, b := b, x := x]
    ensures BestMove(g, comm, x, b)
  {
    hide Gain, BestMove, WellFormed, Offset, Mass;
    SecondGain(g, a, b, x, comm);
    assert b in NeighborsOf(g, x);
    OnlyCandidate(g, comm, x, b);
  }

  lemma SecondLowers(g: Weighted, a: Id, b: Id, x: Id, comm: Clustering)
    requires ThreeNodes(g, a, b, x) && comm == map[a := x, b := b, x := x]
    ensures Mass(g) == 10.0 && Newman(g, comm[x := b]) < Newman(g, comm)
  {
    hide Gain, Offset, Mass, ScaledModularity;
    SecondGain(g, a, b, x, comm);
    GainIsModularityChange(g, comm, x, b);
    CompareOver(Mass(g), ScaledModularity(g, comm), ScaledModularity(g, comm[x := b]));
  }

  /** A run of accepted moves whose last move lowers Newman modularity. */
  lemma AcceptedMoveCanLowerModularity(g: Weighted, a: Id, b: Id, x: Id) returns (start: Clustering, first: Move, second: Move)
    requires ThreeNodes(g, a, b, x)
    ensures start == map[a := a, b := b, x := x]
    ensures RunOf(Accepting(g), start, [first, second], After(second))
    ensures Mass(g) == 10.0 && Newman(g, After(second)) < Newman(g, second.before)
  {
    hide BestMove, Newman, Mass, ThreeNodes;
    AllNodes(g, a, b, x);
    start := map[a := a, b := b, x := x];
    first := Move(start, a, x);
    second := Move(After(first), x, b);
    FirstMove(g, a, b, x, start);
    assert After(first) == map[a := x, b := b, x := x];
    SecondMove(g, a, b, x, After(first));
    SecondLowers(g, a, b, x, After(first));
    ExtendRun(Accepting(g), start, [], first);
    ExtendRun(Accepting(g), start, [first], second);
    assert [] + [first] == [first] && [first] + [second] == [first, second];
  }

  lemma AllNodes(g: Weighted, a: Id, b: Id, x: Id)
    requires ThreeNodes(g, a, b, x)
    ensures a in g.nodes && x in g.nodes && a != x && a != b && b != x
  {
  }

  /** Such a graph exists: two relations between three symbols give it. */
  function Chain(): Weighted
  {
    Weighted({"a", "b", "x"}, map["a" := map["x" := 3.0], "b" := map["x" := 2.0], "x" := map["a" := 3.0, "b" := 2.0]])
  }

  function ChainEdges(): seq<Edge>
  {
    [PlainEdge("a", "x", Calls), PlainEdge("b", "x", MemberOf)]
  }

  lemma ChainEdgeWeight(i: Id, j: Id)
    ensures PairWeight({"a", "b", "x"}, ChainEdges(), i, j) == ChainWeight(i, j)
  {
    var symbols, edges := {"a", "b", "x"}, ChainEdges();
    var first := edges[..1];
    assert edges[..|edges| - 1] == first && first[..|first| - 1] == [];
    assert PairWeight(symbols, first, i, j) == Contribution(symbols, edges[0], i, j);
    assert PairWeight(symbols, edges, i, j) == Contribution(symbols, edges[0], i, j) + Contribution(symbols, edges[1], i, j);
  }

  /** The edge kinds give the weights 3 and 2: Chain is the weighted graph of the two relations. */
  lemma ChainIsReal()
    ensures GraphOf({"a", "b", "x"}, ChainEdges(), Chain())
  {
    ChainIsThreeNodes();
    ThreeNodesForm(Chain());
    hide Chain, ThreeNodes, PairWeight, ChainWeight;
    forall i, j
      ensures W(Chain(), i, j) == PairWeight({"a", "b", "x"}, ChainEdges(), i, j)
    {
      ChainMapWeight(i, j);
      ChainEdgeWeight(i, j);
    }
  }

  lemma PositiveIsNeighbor(g: Weighted, i: Id, j: Id)
    requires WellFormed(g)
    ensures j in NeighborsOf(g, i) <==> W(g, i, j) > 0.0
  {
    if i in g.nb && j in g.nb[i] {
      assert j in g.nodes;
    }
  }

  lemma ChainGraphWeight(g: Weighted, i: Id, j: Id)
    requires GraphOf({"a", "b", "x"}, ChainEdges(), g)
    ensures W(g, i, j) == ChainWeight(i, j)
  {
    ChainEdgeWeight(i, j);
    hide PairWeight, ChainWeight, ChainEdges, W;
    assert PairWeight({"a", "b", "x"}, ChainEdges(), i, j) == ChainWeight(i, j);
  }

  /** Every weighted graph that the program can build from them is such a graph. */
  lemma ChainGraph(g: Weighted)
    requires GraphOf({"a", "b", "x"}, ChainEdges(), g)
    ensures ThreeNodes(g, "a", "b", "x")
  {
    hide PairWeight, W, NeighborsOf, WellFormed, ChainEdges, ChainWeight;
    forall i, j
      ensures W(g, i, j) == ChainWeight(i, j)
      ensures j in NeighborsOf(g, i) <==> ChainWeight(i, j) > 0.0
    {
      ChainGraphWeight(g, i, j);
      PositiveIsNeighbor(g, i, j);
    }
    ChainWeights();
  }

  lemma ChainWeights()
    ensures forall i :: ChainWeight("a", i) == if i == "x" then 3.0 else 0.0
    ensures forall i :: ChainWeight("b", i) == if i == "x" then 2.0 else 0.0
    ensures forall i :: ChainWeight("x", i) == if i == "a" then 3.0 else if i == "b" then 2.0 else 0.0
  {
  }

  lemma ThreeNodesForm(g: Weighted)
    requires ThreeNodes(g, "a", "b", "x")
    ensures g.nodes == {"a", "b", "x"} && WellFormed(g)
  {
  }

  function ChainWeight(i: Id, j: Id): real
  {
    if (i == "a" && j == "x") || (i == "x" && j == "a") then 3.0
    else if (i == "b" && j == "x") || (i == "x" && j == "b") then 2.0
    else 0.0
  }

  lemma ChainMapWeight(i: Id, j: Id)
    ensures W(Chain(), i, j) == ChainWeight(i, j)
  {
  }

  lemma ChainIsThreeNodes()
    ensures ThreeNodes(Chain(), "a", "b", "x")
  {
    var g := Chain();
    forall i, j
      ensures W(g, i, j) == W(g, j, i)
    {
      if i in g.nb && j in g.nb[i] {
        assert i == "a" || i == "b" || i == "x";
      }
      if j in g.nb && i in g.nb[j] {
        assert j == "a" || j == "b" || j == "x";
      }
    }
  }

  // ---------------------------------------------------------------- the reported modularity

  ghost predicate Adjacent(g: Weighted, i: Id, j: Id)
  {
    j in NeighborsOf(g, i)
  }

  /** computeModularity's summand: only adjacent pairs are visited. */
  ghost function Reported(g: Weighted, comm: Clustering): (Id, Id) -> real
  {
    (i, j) => if Adjacent(g, i, j) && Of(comm, i) == Of(comm, j) then Excess(g)(i, j) else 0.0
  }

  /** What it leaves out: the predicted share of same-community pairs that are not adjacent. */
  ghost function Omitted(g: Weighted, comm: Clustering): (Id, Id) -> real
  {
    (i, j) => if !Adjacent(g, i, j) && Of(comm, i) == Of(comm, j) then Share(g, i, Deg(g, j)) else 0.0
  }

  lemma PortionSign(k: real, d: real, m: real)
    requires k >= 0.0 && d >= 0.0 && m > 0.0
    ensures Portion(k, d, m) >= 0.0
    ensures Portion(k, d, m) == 0.0 <==> k == 0.0 || d == 0.0
  {
    if k > 0.0 && d > 0.0 {
      assert k * d > 0.0;
    }
  }

  lemma DegNonNegative(g: Weighted, i: Id)
    requires WellFormed(g)
    ensures Deg(g, i) >= 0.0
  {
    SumAtLeast(g.nodes, Row(Weight(g), i), j => 0.0);
    SumZero(g.nodes, j => 0.0);
  }

  lemma OmittedSign(g: Weighted, comm: Clustering, i: Id, j: Id)
    requires WellFormed(g) && Mass(g) > 0.0
    ensures Omitted(g, comm)(i, j) >= 0.0
  {
    hide Deg, Mass;
    DegNonNegative(g, i);
    DegNonNegative(g, j);
    PortionSign(Deg(g, i), Deg(g, j), Mass(g));
  }

  /** Before rounding, the reported figure is Newman modularity plus what was left out. */
  lemma ReportedExceedsNewman(g: Weighted, comm: Clustering)
    requires WellFormed(g) && Mass(g) > 0.0
    ensures Sum2(g.nodes, Reported(g, comm)) == ScaledModularity(g, comm) + Sum2(g.nodes, Omitted(g, comm))
    ensures Sum2(g.nodes, Omitted(g, comm)) >= 0.0
  {
    hide Deg, Mass, Sum2;
    forall i, j | i in g.nodes && j in g.nodes
      ensures Reported(g, comm)(i, j) == Together(Excess(g), comm)(i, j) + Omitted(g, comm)(i, j)
    {
    }
    Sum2Add(g.nodes, Reported(g, comm), Together(Excess(g), comm), Omitted(g, comm));
    forall i, j
      ensures Omitted(g, comm)(i, j) >= 0.0
    {
      OmittedSign(g, comm, i, j);
    }
    Sum2NonNegative(g.nodes, Omitted(g, comm));
  }

  lemma Sum2NonNegative(s: set<Id>, h: (Id, Id) -> real)
    requires forall i, j :: h(i, j) >= 0.0
    ensures Sum2(s, h) >= 0.0
    ensures forall i, j :: i in s && j in s && h(i, j) > 0.0 ==> Sum2(s, h) > 0.0
  {
    forall i
      ensures RowSums(s, h)(i) >= 0.0
    {
      SumNonNegative(s, Row(h, i));
    }
    SumNonNegative(s, RowSums(s, h));
    forall i, j | i in s && j in s && h(i, j) > 0.0
      ensures Sum2(s, h) > 0.0
    {
      SumPick(s, Row(h, i), j);
      SumNonNegative(s - {j}, Row(h, i));
      SumPick(s, RowSums(s, h), i);
      SumNonNegative(s - {i}, RowSums(s, h));
    }
  }

  lemma SumNonNegative(s: set<Id>, f: Id -> real)
    requires forall x :: x in s ==> f(x) >= 0.0
    ensures Sum(s, f) >= 0.0
  {
    SumAtLeast(s, f, j => 0.0);
    SumZero(s, j => 0.0);
  }

  /** It is strictly too high as soon as some connected symbol has no self-edge. */
  lemma ReportedTooHigh(g: Weighted, comm: Clustering, x: Id)
    requires WellFormed(g) && Mass(g) > 0.0 && x in g.nodes && Deg(g, x) > 0.0 && !Adjacent(g, x, x)
    ensures Sum2(g.nodes, Reported(g, comm)) > ScaledModularity(g, comm)
  {
    hide Deg, Mass, Sum2;
    ReportedExceedsNewman(g, comm);
    forall i, j
      ensures Omitted(g, comm)(i, j) >= 0.0
    {
      OmittedSign(g, comm, i, j);
    }
    PortionSign(Deg(g, x), Deg(g, x), Mass(g));
    assert Omitted(g, comm)(x, x) > 0.0;
    Sum2NonNegative(g.nodes, Omitted(g, comm));
  }

  /** It is exact precisely when any two connected members of a community, each with itself
      included, are adjacent. */
  lemma ReportedExact(g: Weighted, comm: Clustering)
    requires WellFormed(g) && Mass(g) > 0.0
    ensures Sum2(g.nodes, Reported(g, comm)) == ScaledModularity(g, comm) <==>
      forall i, j :: i in g.nodes && j in g.nodes && Of(comm, i) == Of(comm, j) && Deg(g, i) > 0.0 && Deg(g, j) > 0.0
        ==> Adjacent(g, i, j)
  {
    hide Deg, Mass, Sum2;
    ReportedExceedsNewman(g, comm);
    var h := Omitted(g, comm);
    forall i, j
      ensures h(i, j) >= 0.0
      ensures h(i, j) > 0.0 <==> Of(comm, i) == Of(comm, j) && Deg(g, i) > 0.0 && Deg(g, j) > 0.0 && !Adjacent(g, i, j)
    {
      DegNonNegative(g, i);
      DegNonNegative(g, j);
      PortionSign(Deg(g, i), Deg(g, j), Mass(g));
    }
    Sum2NonNegative(g.nodes, h);
    if forall i, j :: i in g.nodes && j in g.nodes ==> h(i, j) == 0.0 {
      Sum2None(g.nodes, h);
    }
  }
}
