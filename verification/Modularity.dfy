/** Newman modularity of a clustering of a weighted graph, defined over all ordered pairs of
    nodes, and how it changes when one node changes community. This is the reference against
    which internal/analysis/communities.go is judged; it does not follow that file's code. */
module Modularity {
  import opened Reachability
  import opened Sums

  /** nb[i][j] is the weight between i and j; a self-edge contributes to nb[i][i]. */
  datatype Weighted = Weighted(nodes: set<Id>, nb: map<Id, map<Id, real>>)

  type Clustering = map<Id, Id>

  function W(g: Weighted, i: Id, j: Id): real
  {
    if i in g.nb && j in g.nb[i] then g.nb[i][j] else 0.0
  }

  ghost function Weight(g: Weighted): (Id, Id) -> real
  {
    (i, j) => W(g, i, j)
  }

  ghost predicate Symmetric(g: Weighted)
  {
    forall i, j :: W(g, i, j) == W(g, j, i)
  }

  /** Weighted degree. */
  ghost function Deg(g: Weighted, i: Id): real
  {
    Sum(g.nodes, Row(Weight(g), i))
  }

  /** Twice the total edge weight. */
  ghost function Mass(g: Weighted): real
  {
    Sum2(g.nodes, Weight(g))
  }

  function Of(comm: Clustering, i: Id): Id
  {
    if i in comm then comm[i] else ""
  }

  /** The share of i's degree that chance alone would send to a node of degree d. */
  ghost function Share(g: Weighted, i: Id, d: real): real
  {
    Portion(Deg(g, i), d, Mass(g))
  }

  function Portion(k: real, d: real, m: real): real
  {
    if m == 0.0 then 0.0 else k * d / m
  }

  /** The excess of the weight between i and j over what their degrees alone would predict. */
  ghost function Excess(g: Weighted): (Id, Id) -> real
  {
    (i, j) => W(g, i, j) - Share(g, i, Deg(g, j))
  }

  ghost function Together(e: (Id, Id) -> real, comm: Clustering): (Id, Id) -> real
  {
    (i, j) => if Of(comm, i) == Of(comm, j) then e(i, j) else 0.0
  }

  /** Mass(g) times the modularity. */
  ghost function ScaledModularity(g: Weighted, comm: Clustering): real
  {
    Sum2(g.nodes, Together(Excess(g), comm))
  }

  ghost function Newman(g: Weighted, comm: Clustering): real
    requires Mass(g) != 0.0
  {
    ScaledModularity(g, comm) / Mass(g)
  }

  // ---------------------------------------------------------------- per-community quantities

  ghost function Toward(e: (Id, Id) -> real, comm: Clustering, x: Id, c: Id): Id -> real
  {
    j => if Of(comm, j) == c then e(x, j) else 0.0
  }

  ghost function Degrees(g: Weighted): Id -> real
  {
    j => Deg(g, j)
  }

  ghost function Members(d: Id -> real, comm: Clustering, c: Id): Id -> real
  {
    j => if Of(comm, j) == c then d(j) else 0.0
  }

  /** The weight between x and the members of community c. */
  ghost function LinkTo(g: Weighted, comm: Clustering, x: Id, c: Id): real
  {
    Sum(g.nodes, Toward(Weight(g), comm, x, c))
  }

  /** The sum of the degrees of the members of community c. */
  ghost function Tot(g: Weighted, comm: Clustering, c: Id): real
  {
    Sum(g.nodes, Members(Degrees(g), comm, c))
  }

  ghost function Inside(e: (Id, Id) -> real, comm: Clustering, c: Id): (Id, Id) -> real
  {
    (i, j) => if Of(comm, i) == c && Of(comm, j) == c then e(i, j) else 0.0
  }

  /** The weight of all ordered pairs inside community c. */
  ghost function Inner(g: Weighted, comm: Clustering, c: Id): real
  {
    Sum2(g.nodes, Inside(Weight(g), comm, c))
  }

  // ---------------------------------------------------------------- one node moves

  /** For any symmetric table, the sum over same-community pairs with x's part set apart. */
  lemma ApartFrom(s: set<Id>, e: (Id, Id) -> real, comm: Clustering, x: Id)
    requires x in s && forall i, j :: e(i, j) == e(j, i)
    ensures Sum2(s, Together(e, comm)) ==
      e(x, x) + 2.0 * Sum(s - {x}, Toward(e, comm, x, Of(comm, x))) + Sum2(s - {x}, Together(e, comm))
  {
    Sum2Split(s, Together(e, comm), x);
    SumCong(s - {x}, Row(Together(e, comm), x), Toward(e, comm, x, Of(comm, x)));
  }

  lemma MoveChange(s: set<Id>, e: (Id, Id) -> real, comm: Clustering, x: Id, c: Id)
    requires x in s && x in comm && forall i, j :: e(i, j) == e(j, i)
    ensures Sum2(s, Together(e, comm[x := c])) - Sum2(s, Together(e, comm)) ==
      2.0 * (Sum(s - {x}, Toward(e, comm, x, c)) - Sum(s - {x}, Toward(e, comm, x, comm[x])))
  {
    ApartFrom(s, e, comm, x);
    ApartFrom(s, e, comm[x := c], x);
    MoveElsewhere(s - {x}, e, comm, x, c);
  }

  /** Sums over the other nodes do not notice the move. */
  lemma MoveElsewhere(r: set<Id>, e: (Id, Id) -> real, comm: Clustering, x: Id, c: Id)
    requires x !in r
    ensures Sum2(r, Together(e, comm[x := c])) == Sum2(r, Together(e, comm))
    ensures Sum(r, Toward(e, comm[x := c], x, c)) == Sum(r, Toward(e, comm, x, c))
  {
    var moved := comm[x := c];
    forall i | i in r
      ensures Of(moved, i) == Of(comm, i)
    {
      OfMoved(comm, x, c, i);
    }
    Sum2Cong(r, Together(e, moved), Together(e, comm));
    SumCong(r, Toward(e, moved, x, c), Toward(e, comm, x, c));
  }

  lemma OfMoved(comm: Clustering, x: Id, c: Id, i: Id)
    ensures Of(comm[x := c], i) == if i == x then c else Of(comm, i)
  {
  }

  /** If e = w - m(d) towards every node, then so it is towards every community, m being additive. */
  lemma TowardLinear(s: set<Id>, e: (Id, Id) -> real, w: (Id, Id) -> real, m: real -> real, d: Id -> real,
                     comm: Clustering, x: Id, c: Id)
    requires m(0.0) == 0.0 && forall a, b {:trigger AddsUp(m, a, b)} :: AddsUp(m, a, b)
    requires forall j :: e(x, j) == w(x, j) - m(d(j))
    ensures Sum(s, Toward(e, comm, x, c)) == Sum(s, Toward(w, comm, x, c)) - m(Sum(s, Members(d, comm, c)))
  {
    var share := (j: Id) => m(Members(d, comm, c)(j));
    SumMap(s, share, m, Members(d, comm, c));
    SumAdd(s, Toward(w, comm, x, c), Toward(e, comm, x, c), share);
  }

  lemma PortionAdds(k: real, m: real, a: real, b: real)
    ensures Portion(k, a + b, m) == Portion(k, a, m) + Portion(k, b, m)
  {
  }

  ghost function Shares(g: Weighted, x: Id): real -> real
  {
    d => Share(g, x, d)
  }

  lemma SharesAdd(g: Weighted, x: Id)
    requires Mass(g) != 0.0
    ensures Shares(g, x)(0.0) == 0.0 && forall a, b {:trigger AddsUp(Shares(g, x), a, b)} :: AddsUp(Shares(g, x), a, b)
  {
    forall a, b
      ensures AddsUp(Shares(g, x), a, b)
    {
      PortionAdds(Deg(g, x), Mass(g), a, b);
    }
  }

  lemma PortionCommutes(a: real, b: real, m: real)
    ensures Portion(a, b, m) == Portion(b, a, m)
  {
  }

  lemma ExcessPair(g: Weighted, i: Id, j: Id)
    requires W(g, i, j) == W(g, j, i)
    ensures Excess(g)(i, j) == Excess(g)(j, i)
  {
    PortionCommutes(Deg(g, i), Deg(g, j), Mass(g));
  }

  lemma ExcessSymmetric(g: Weighted)
    requires Symmetric(g)
    ensures forall i, j :: Excess(g)(i, j) == Excess(g)(j, i)
  {
    forall i, j
      ensures Excess(g)(i, j) == Excess(g)(j, i)
    {
      ExcessPair(g, i, j);
    }
  }

  /** The quantity communities.go calls `gain`. */
  ghost function Gain(g: Weighted, comm: Clustering, x: Id, c: Id): real
    requires x in comm
  {
    LinkTo(g, comm, x, c) - Share(g, x, Tot(g, comm, c))
    - (LinkTo(g, comm, x, comm[x]) - Share(g, x, Tot(g, comm, comm[x])))
  }

  /** What `gain` leaves out; it does not depend on the candidate community. */
  ghost function Offset(g: Weighted, x: Id): real
  {
    W(g, x, x) - Share(g, x, Deg(g, x))
  }

  /** Taking x out of the sums for community c. */
  lemma WithoutNode(s: set<Id>, w: (Id, Id) -> real, d: Id -> real, comm: Clustering, x: Id, c: Id)
    requires x in s && x in comm
    ensures comm[x] != c ==>
      && Sum(s, Toward(w, comm, x, c)) == Sum(s - {x}, Toward(w, comm, x, c))
      && Sum(s, Members(d, comm, c)) == Sum(s - {x}, Members(d, comm, c))
    ensures comm[x] == c ==>
      && Sum(s, Toward(w, comm, x, c)) == Sum(s - {x}, Toward(w, comm, x, c)) + w(x, x)
      && Sum(s, Members(d, comm, c)) == Sum(s - {x}, Members(d, comm, c)) + d(x)
  {
    SumPick(s, Toward(w, comm, x, c), x);
    SumPick(s, Members(d, comm, c), x);
  }

  lemma Balance(change: real, ec: real, e0: real, lc: real, mc: real, l0: real, l0r: real, m0: real, m0r: real, wxx: real, mx: real)
    requires change == 2.0 * (ec - e0) && ec == lc - mc && e0 == l0r - m0r
    requires l0 == l0r + wxx && m0 == m0r + mx
    ensures change == 2.0 * ((lc - mc) - (l0 - m0) + (wxx - mx))
  {
  }

  lemma AddsUpTo(m: real -> real, a: real, b: real, c: real)
    requires forall x, y {:trigger AddsUp(m, x, y)} :: AddsUp(m, x, y)
    requires c == a + b
    ensures m(c) == m(a) + m(b)
  {
    assert AddsUp(m, a, b);
  }

  /** The change for any excess of the form w - m(d), m additive. */
  lemma ChangeOfMove(s: set<Id>, e: (Id, Id) -> real, w: (Id, Id) -> real, m: real -> real, d: Id -> real,
                     comm: Clustering, x: Id, c: Id)
    requires x in s && x in comm && c != comm[x] && forall i, j :: e(i, j) == e(j, i)
    requires m(0.0) == 0.0 && forall a, b {:trigger AddsUp(m, a, b)} :: AddsUp(m, a, b)
    requires forall j :: e(x, j) == w(x, j) - m(d(j))
    ensures Sum2(s, Together(e, comm[x := c])) - Sum2(s, Together(e, comm)) == 2.0 * (
      (Sum(s, Toward(w, comm, x, c)) - m(Sum(s, Members(d, comm, c))))
      - (Sum(s, Toward(w, comm, x, comm[x])) - m(Sum(s, Members(d, comm, comm[x]))))
      + (w(x, x) - m(d(x))))
  {
    var r, c0 := s - {x}, comm[x];
    MoveChange(s, e, comm, x, c);
    TowardLinear(r, e, w, m, d, comm, x, c);
    TowardLinear(r, e, w, m, d, comm, x, c0);
    WithoutNode(s, w, d, comm, x, c);
    WithoutNode(s, w, d, comm, x, c0);
    var t0r := Sum(r, Members(d, comm, c0));
    AddsUpTo(m, t0r, d(x), Sum(s, Members(d, comm, c0)));
    Balance(Sum2(s, Together(e, comm[x := c])) - Sum2(s, Together(e, comm)),
      Sum(r, Toward(e, comm, x, c)), Sum(r, Toward(e, comm, x, c0)),
      Sum(s, Toward(w, comm, x, c)), m(Sum(s, Members(d, comm, c))),
      Sum(s, Toward(w, comm, x, c0)), Sum(r, Toward(w, comm, x, c0)),
      m(Sum(s, Members(d, comm, c0))), m(t0r), w(x, x), m(d(x)));
  }

  /** Half the change of Mass * modularity is `gain` plus the offset: for every clustering,
      node and target community other than its own, self-edges included. */
  lemma GainIsModularityChange(g: Weighted, comm: Clustering, x: Id, c: Id)
    requires Symmetric(g) && x in g.nodes && x in comm && Mass(g) != 0.0
    requires c != comm[x]
    ensures ScaledModularity(g, comm[x := c]) - ScaledModularity(g, comm) == 2.0 * (Gain(g, comm, x, c) + Offset(g, x))
  {
    SharesAdd(g, x);
    ExcessSymmetric(g);
    ChangeOfMove(g.nodes, Excess(g), Weight(g), Shares(g, x), Degrees(g), comm, x, c);
  }

  lemma CompareOver(m: real, a: real, b: real)
    requires m > 0.0
    ensures a / m >= b / m <==> a >= b
    ensures a / m > b / m <==> a > b
  {
  }

  /** Ranking communities by `gain` ranks them by the modularity that moving x would give. */
  lemma GainRanksModularity(g: Weighted, comm: Clustering, x: Id, c: Id, d: Id)
    requires Symmetric(g) && x in g.nodes && x in comm && Mass(g) > 0.0
    requires c != comm[x] && d != comm[x]
    ensures Gain(g, comm, x, c) >= Gain(g, comm, x, d) <==> Newman(g, comm[x := c]) >= Newman(g, comm[x := d])
  {
    GainIsModularityChange(g, comm, x, c);
    GainIsModularityChange(g, comm, x, d);
    CompareOver(Mass(g), ScaledModularity(g, comm[x := c]), ScaledModularity(g, comm[x := d]));
  }

  /** Exactly when a move raises modularity: a positive gain is not enough, it must exceed -Offset. */
  lemma MoveRaisesModularity(g: Weighted, comm: Clustering, x: Id, c: Id)
    requires Symmetric(g) && x in g.nodes && x in comm && Mass(g) > 0.0
    requires c != comm[x]
    ensures Newman(g, comm[x := c]) > Newman(g, comm) <==> Gain(g, comm, x, c) > Share(g, x, Deg(g, x)) - W(g, x, x)
  {
    GainIsModularityChange(g, comm, x, c);
    CompareOver(Mass(g), ScaledModularity(g, comm[x := c]), ScaledModularity(g, comm));
  }

  // ---------------------------------------------------------------- community totals after a move

  /** A community's degree total gains or loses exactly the moved node's degree. */
  lemma TotAfterMove(g: Weighted, comm: Clustering, x: Id, c: Id, d: Id)
    requires x in g.nodes && x in comm && c != comm[x]
    ensures Tot(g, comm[x := c], d) ==
      if d == c then Tot(g, comm, d) + Deg(g, x) else if d == comm[x] then Tot(g, comm, d) - Deg(g, x) else Tot(g, comm, d)
  {
    var moved, r, deg := comm[x := c], g.nodes - {x}, Degrees(g);
    SumPick(g.nodes, Members(deg, comm, d), x);
    SumPick(g.nodes, Members(deg, moved, d), x);
    forall i | i in r
      ensures Members(deg, moved, d)(i) == Members(deg, comm, d)(i)
    {
      OfMoved(comm, x, c, i);
    }
    SumCong(r, Members(deg, moved, d), Members(deg, comm, d));
  }

  lemma InsideAfterMove(s: set<Id>, e: (Id, Id) -> real, comm: Clustering, x: Id, c: Id, d: Id)
    requires x in s && x in comm && c != comm[x] && e(x, x) == 0.0 && forall i, j :: e(i, j) == e(j, i)
    ensures Sum2(s, Inside(e, comm[x := c], d)) == Sum2(s, Inside(e, comm, d))
      + (if d == c then 2.0 * Sum(s, Toward(e, comm, x, d))
         else if d == comm[x] then -2.0 * Sum(s, Toward(e, comm, x, d)) else 0.0)
  {
    InnerApart(s, e, comm, x, d);
    InnerApart(s, e, comm[x := c], x, d);
    InnerElsewhere(s - {x}, e, comm, x, c, d);
    SumPick(s, Toward(e, comm, x, d), x);
  }

  /** Likewise its inner weight, by twice the weight between the node and the community, if the
      node has no self-edge. */
  lemma InnerAfterMove(g: Weighted, comm: Clustering, x: Id, c: Id, d: Id)
    requires Symmetric(g) && x in g.nodes && x in comm && c != comm[x] && W(g, x, x) == 0.0
    ensures Inner(g, comm[x := c], d) == Inner(g, comm, d)
      + (if d == c then 2.0 * LinkTo(g, comm, x, d) else if d == comm[x] then -2.0 * LinkTo(g, comm, x, d) else 0.0)
  {
    InsideAfterMove(g.nodes, Weight(g), comm, x, c, d);
  }

  lemma InnerApart(s: set<Id>, e: (Id, Id) -> real, comm: Clustering, x: Id, d: Id)
    requires x in s && x in comm && e(x, x) == 0.0 && forall i, j :: e(i, j) == e(j, i)
    ensures comm[x] == d ==>
      Sum2(s, Inside(e, comm, d)) == 2.0 * Sum(s - {x}, Toward(e, comm, x, d)) + Sum2(s - {x}, Inside(e, comm, d))
    ensures comm[x] != d ==> Sum2(s, Inside(e, comm, d)) == Sum2(s - {x}, Inside(e, comm, d))
  {
    Sum2Split(s, Inside(e, comm, d), x);
    if comm[x] == d {
      SumCong(s - {x}, Row(Inside(e, comm, d), x), Toward(e, comm, x, d));
    } else {
      SumZero(s - {x}, Row(Inside(e, comm, d), x));
    }
  }

  lemma InnerElsewhere(r: set<Id>, e: (Id, Id) -> real, comm: Clustering, x: Id, c: Id, d: Id)
    requires x !in r
    ensures Sum2(r, Inside(e, comm[x := c], d)) == Sum2(r, Inside(e, comm, d))
    ensures Sum(r, Toward(e, comm[x := c], x, d)) == Sum(r, Toward(e, comm, x, d))
  {
    var moved := comm[x := c];
    forall i | i in r
      ensures Of(moved, i) == Of(comm, i)
    {
      OfMoved(comm, x, c, i);
    }
    Sum2Cong(r, Inside(e, moved, d), Inside(e, comm, d));
    SumCong(r, Toward(e, moved, x, d), Toward(e, comm, x, d));
  }

  ghost function Tots(g: Weighted, comm: Clustering): Id -> real
  {
    c => Tot(g, comm, c)
  }

  /** Row c, column x: x's degree if x belongs to community c. */
  ghost function Belonging(g: Weighted, comm: Clustering): (Id, Id) -> real
  {
    (c, x) => if Of(comm, x) == c then Deg(g, x) else 0.0
  }

  lemma BelongsOnce(g: Weighted, comm: Clustering, communities: set<Id>, x: Id)
    requires Of(comm, x) in communities
    ensures Sum(communities, Col(Belonging(g, comm), x)) == Deg(g, x)
  {
    var col := Col(Belonging(g, comm), x);
    SumPick(communities, col, Of(comm, x));
    SumZero(communities - {Of(comm, x)}, col);
  }

  /** The degree totals of a set of communities that covers every node add up to Mass. */
  lemma TotsAddUp(g: Weighted, comm: Clustering, communities: set<Id>)
    requires forall x :: x in g.nodes ==> Of(comm, x) in communities
    ensures Sum(communities, Tots(g, comm)) == Mass(g)
  {
    hide Sum;
    var h := Belonging(g, comm);
    SumSwap(communities, g.nodes, h);
    forall c | c in communities
      ensures RowSums(g.nodes, h)(c) == Tots(g, comm)(c)
    {
      SumCong(g.nodes, Row(h, c), Members(Degrees(g), comm, c));
    }
    SumCong(communities, Tots(g, comm), RowSums(g.nodes, h));
    forall x | x in g.nodes
      ensures ColSums(communities, h)(x) == RowSums(g.nodes, Weight(g))(x)
    {
      BelongsOnce(g, comm, communities, x);
    }
    SumCong(g.nodes, ColSums(communities, h), RowSums(g.nodes, Weight(g)));
  }
}
