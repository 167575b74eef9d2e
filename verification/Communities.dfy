/** internal/analysis/communities.go, DetectCommunities as a whole: the result it builds. */
module Communities {
  import opened Reachability
  import opened Paths
  import opened CodeGraph
  import opened Sums
  import opened Modularity
  import opened WeightedGraph
  import opened Louvain
  import opened LouvainLimits
  import opened Sorting

  /** Labels are numbered; the program prints them as "community-<n>". */
  datatype Community = Community(id: nat, members: seq<Id>, cohesion: real)

  datatype CommunityResult = CommunityResult(communities: seq<Community>, nodeToComm: map<Id, nat>, modularity: real)

  // ---------------------------------------------------------------- computeModularity

  ghost function RowLeft(h: (Id, Id) -> real, i: Id, left: set<Id>): Id -> real
  {
    j => if j in left then 0.0 else h(i, j)
  }

  /** The sum of h(i, j) over the neighbours j of i, taken in any order, is the sum over all nodes. */
  lemma RowLeftStep(s: set<Id>, h: (Id, Id) -> real, i: Id, left: set<Id>, j: Id)
    requires j in s && j in left
    ensures Sum(s, RowLeft(h, i, left - {j})) == Sum(s, RowLeft(h, i, left)) + h(i, j)
  {
    SumPoint(s, RowLeft(h, i, left), RowLeft(h, i, left - {j}), j);
  }

  lemma RowLeftEnds(s: set<Id>, h: (Id, Id) -> real, i: Id, all: set<Id>)
    requires forall j :: j !in all ==> h(i, j) == 0.0
    ensures Sum(s, RowLeft(h, i, all)) == 0.0
    ensures Sum(s, RowLeft(h, i, {})) == Sum(s, Row(h, i))
  {
    SumZero(s, RowLeft(h, i, all));
    SumCong(s, RowLeft(h, i, {}), Row(h, i));
  }

  /** The summand as the code writes it. */
  lemma ReportedTerm(g: Weighted, comm: Clustering, degree: map<Id, real>, totalWeight: real, i: Id, j: Id)
    requires WellFormed(g) && DegreesOf(g, degree) && totalWeight == Mass(g) / 2.0 && totalWeight > 0.0 && i in g.nodes
    ensures !Adjacent(g, i, j) ==> Reported(g, comm)(i, j) == 0.0
    ensures Of(comm, j) != Of(comm, i) ==> Reported(g, comm)(i, j) == 0.0
    ensures Adjacent(g, i, j) && Of(comm, j) == Of(comm, i) ==>
      Reported(g, comm)(i, j) == NeighborsOf(g, i)[j] - GetReal(degree, i) * GetReal(degree, j) / (2.0 * totalWeight)
  {
    hide Deg, Mass, Portion;
    if Adjacent(g, i, j) && Of(comm, j) == Of(comm, i) {
      var ki, kj := GetReal(degree, i), GetReal(degree, j);
      assert ki == Deg(g, i) && kj == Deg(g, j);
      assert Excess(g)(i, j) == W(g, i, j) - Share(g, i, kj);
      assert Share(g, i, kj) == Portion(ki, kj, Mass(g));
      assert Reported(g, comm)(i, j) == Excess(g)(i, j);
      CodePortion(ki, kj, Mass(g), totalWeight);
    }
  }

  lemma CodePortion(k: real, d: real, m: real, totalWeight: real)
    requires totalWeight == m / 2.0 && totalWeight > 0.0
    ensures Portion(k, d, m) == k * d / (2.0 * totalWeight)
  {
    assert 2.0 * totalWeight == m;
  }

  method ModularityRow(g: Weighted, comm: Clustering, degree: map<Id, real>, totalWeight: real, i: Id) returns (q: real)
    requires WellFormed(g) && DegreesOf(g, degree) && totalWeight == Mass(g) / 2.0 && totalWeight > 0.0 && i in g.nodes
    ensures q == Sum(g.nodes, Row(Reported(g, comm), i))
  {
    hide Sum, Deg, Mass, Reported;
    ghost var h := Reported(g, comm);
    var row := NeighborsOf(g, i);
    var remaining := row.Keys;
    forall j
      ensures j !in row ==> h(i, j) == 0.0
    {
      ReportedTerm(g, comm, degree, totalWeight, i, j);
    }
    RowLeftEnds(g.nodes, h, i, row.Keys);
    q := 0.0;
    while remaining != {}
      invariant remaining <= row.Keys
      invariant q == Sum(g.nodes, RowLeft(h, i, remaining))
      decreases remaining
    {
      var j :| j in remaining;
      RowLeftStep(g.nodes, h, i, remaining, j);
      ReportedTerm(g, comm, degree, totalWeight, i, j);
      if Of(comm, j) == Of(comm, i) {
        q := q + (row[j] - GetReal(degree, i) * GetReal(degree, j) / (2.0 * totalWeight));
      }
      remaining := remaining - {j};
    }
  }

  ghost function SumsLeft(s: set<Id>, h: (Id, Id) -> real, left: set<Id>): Id -> real
  {
    i => if i in left then 0.0 else Sum(s, Row(h, i))
  }

  lemma SumsLeftStep(s: set<Id>, h: (Id, Id) -> real, left: set<Id>, i: Id)
    requires i in s && i in left
    ensures Sum(s, SumsLeft(s, h, left - {i})) == Sum(s, SumsLeft(s, h, left)) + Sum(s, Row(h, i))
  {
    SumPoint(s, SumsLeft(s, h, left), SumsLeft(s, h, left - {i}), i);
  }

  lemma SumsLeftEnds(s: set<Id>, h: (Id, Id) -> real)
    ensures Sum(s, SumsLeft(s, h, s)) == 0.0
    ensures Sum(s, SumsLeft(s, h, {})) == Sum2(s, h)
  {
    SumZero(s, SumsLeft(s, h, s));
    SumCong(s, SumsLeft(s, h, {}), RowSums(s, h));
  }

  /** Before rounding: the sum over adjacent same-community pairs, over Mass. */
  method ComputeModularity(g: Weighted, comm: Clustering, degree: map<Id, real>, totalWeight: real) returns (q: real)
    requires WellFormed(g) && DegreesOf(g, degree) && totalWeight == Mass(g) / 2.0 && totalWeight > 0.0
    ensures q == Sum2(g.nodes, Reported(g, comm)) / Mass(g)
    ensures q >= Newman(g, comm)
  {
    hide Sum, Deg, Mass, Sum2, ScaledModularity;
    ghost var h := Reported(g, comm);
    SumsLeftEnds(g.nodes, h);
    var sum, remaining := 0.0, g.nodes;
    while remaining != {}
      invariant remaining <= g.nodes
      invariant sum == Sum(g.nodes, SumsLeft(g.nodes, h, remaining))
      decreases remaining
    {
      var i :| i in remaining;
      SumsLeftStep(g.nodes, h, remaining, i);
      var row := ModularityRow(g, comm, degree, totalWeight, i);
      sum := sum + row;
      remaining := remaining - {i};
    }
    ReportedExceedsNewman(g, comm);
    CompareOver(Mass(g), sum, ScaledModularity(g, comm));
    q := sum / (2.0 * totalWeight);
  }

  // ---------------------------------------------------------------- computeCohesion

  /** The weights inside community c as the code adds them up, member by member. */
  ghost function InRow(g: Weighted, comm: Clustering, c: Id): (Id, Id) -> real
  {
    (i, j) => if Of(comm, j) == c then W(g, i, j) else 0.0
  }

  method CohesionRow(g: Weighted, memberSet: set<Id>, i: Id, ghost comm: Clustering, ghost c: Id) returns (total: real, internal: real)
    requires WellFormed(g) && forall j :: j in g.nodes ==> (j in memberSet <==> Of(comm, j) == c)
    ensures total == Deg(g, i) && internal == Sum(g.nodes, Row(InRow(g, comm, c), i))
  {
    hide Sum;
    var row := NeighborsOf(g, i);
    var remaining := row.Keys;
    RowLeftEnds(g.nodes, Weight(g), i, row.Keys);
    RowLeftEnds(g.nodes, InRow(g, comm, c), i, row.Keys);
    total, internal := 0.0, 0.0;
    while remaining != {}
      invariant remaining <= row.Keys
      invariant total == Sum(g.nodes, RowLeft(Weight(g), i, remaining))
      invariant internal == Sum(g.nodes, RowLeft(InRow(g, comm, c), i, remaining))
      decreases remaining
    {
      var j :| j in remaining;
      RowLeftStep(g.nodes, Weight(g), i, remaining, j);
      RowLeftStep(g.nodes, InRow(g, comm, c), i, remaining, j);
      total := total + row[j];
      if j in memberSet {
        internal := internal + row[j];
      }
      remaining := remaining - {j};
    }
  }

  /** Sums over the members listed so far. */
  ghost function ListSum(list: seq<Id>, f: Id -> real): real
  {
    if list == [] then 0.0 else ListSum(list[..|list| - 1], f) + f(list[|list| - 1])
  }

  lemma {:induction false} ListSumIsSum(list: seq<Id>, f: Id -> real)
    requires NoRepeats(list)
    ensures ListSum(list, f) == Sum(Items(list), f)
    decreases |list|
  {
    if list == [] {
      assert Items(list) == {};
    } else {
      var front, last := list[..|list| - 1], list[|list| - 1];
      ListSumIsSum(front, f);
      assert last !in front;
      assert Items(list) - {last} == Items(front);
      SumPick(Items(list), f, last);
    }
  }

  lemma MembersSum(g: Weighted, comm: Clustering, c: Id, members: seq<Id>)
    requires NoRepeats(members) && forall x :: x in members <==> x in g.nodes && Of(comm, x) == c
    ensures ListSum(members, Degrees(g)) == Tot(g, comm, c)
    ensures ListSum(members, RowSums(g.nodes, InRow(g, comm, c))) == Inner(g, comm, c)
  {
    hide Sum, Deg, ListSum, NoRepeats;
    var s := Items(members);
    ListSumIsSum(members, Degrees(g));
    ListSumIsSum(members, RowSums(g.nodes, InRow(g, comm, c)));
    OverMembers(g.nodes, s, Degrees(g), Members(Degrees(g), comm, c));
    forall i | i in g.nodes
      ensures i in s ==> RowSums(g.nodes, Inside(Weight(g), comm, c))(i) == RowSums(g.nodes, InRow(g, comm, c))(i)
      ensures i !in s ==> RowSums(g.nodes, Inside(Weight(g), comm, c))(i) == 0.0
    {
      if i in s {
        SumCong(g.nodes, Row(Inside(Weight(g), comm, c), i), Row(InRow(g, comm, c), i));
      } else {
        SumZero(g.nodes, Row(Inside(Weight(g), comm, c), i));
      }
    }
    OverMembers(g.nodes, s, RowSums(g.nodes, InRow(g, comm, c)), RowSums(g.nodes, Inside(Weight(g), comm, c)));
  }

  lemma {:induction false} OverMembers(all: set<Id>, s: set<Id>, f: Id -> real, h: Id -> real)
    requires s <= all && (forall x :: x in s ==> h(x) == f(x)) && (forall x :: x in all && x !in s ==> h(x) == 0.0)
    ensures Sum(s, f) == Sum(all, h)
    decreases |s|
  {
    if s == {} {
      SumZero(all, h);
    } else {
      var x :| x in s;
      SumPick(s, f, x);
      SumPick(all, h, x);
      OverMembers(all - {x}, s - {x}, f, h);
    }
  }

  /** Before rounding, cohesion is the share of the members' total weight that stays inside. */
  method ComputeCohesion(g: Weighted, members: seq<Id>, ghost comm: Clustering, ghost c: Id) returns (cohesion: real)
    requires WellFormed(g) && NoRepeats(members) && forall x :: x in members <==> x in g.nodes && Of(comm, x) == c
    ensures cohesion == Cohesion(g, comm, c)
  {
    hide Deg, Tot, Inner, Sum;
    var memberSet := Items(members);
    var internal, total := 0.0, 0.0;
    for k := 0 to |members|
      invariant total == ListSum(members[..k], Degrees(g))
      invariant internal == ListSum(members[..k], RowSums(g.nodes, InRow(g, comm, c)))
    {
      var t, n := CohesionRow(g, memberSet, members[k], comm, c);
      assert members[..k + 1][..k] == members[..k];
      total, internal := total + t, internal + n;
    }
    assert members[..|members|] == members;
    MembersSum(g, comm, c, members);
    cohesion := if total == 0.0 then 0.0 else internal / total;
  }

  /** So cohesion lies between 0 and 1. */
  lemma CohesionBounds(g: Weighted, comm: Clustering, c: Id)
    requires WellFormed(g)
    ensures 0.0 <= Inner(g, comm, c) <= Tot(g, comm, c)
  {
    var inside := Inside(Weight(g), comm, c);
    forall i | i in g.nodes
      ensures 0.0 <= RowSums(g.nodes, inside)(i) <= Members(Degrees(g), comm, c)(i)
    {
      SumNonNegative(g.nodes, Row(inside, i));
      if Of(comm, i) == c {
        SumAtLeast(g.nodes, Row(Weight(g), i), Row(inside, i));
      } else {
        SumZero(g.nodes, Row(inside, i));
      }
    }
    SumNonNegative(g.nodes, RowSums(g.nodes, inside));
    SumAtLeast(g.nodes, Members(Degrees(g), comm, c), RowSums(g.nodes, inside));
  }

  // ---------------------------------------------------------------- building the result

  /** Labels go to exactly the communities of two or more members, one each. */
  ghost predicate Relabels(commNodes: map<Id, seq<Id>>, remap: map<Id, nat>, left: set<Id>)
  {
    && (forall c :: c in remap <==> c in commNodes && c !in left && |commNodes[c]| >= 2)
    && (forall c, d :: c in remap && d in remap && remap[c] == remap[d] ==> c == d)
  }

  method LabelCommunities(commNodes: map<Id, seq<Id>>) returns (remap: map<Id, nat>)
    ensures Relabels(commNodes, remap, {})
  {
    remap := map[];
    var commIndex: nat := 0;
    var remaining := commNodes.Keys;
    while remaining != {}
      invariant remaining <= commNodes.Keys
      invariant Relabels(commNodes, remap, remaining)
      invariant forall c :: c in remap ==> remap[c] < commIndex
      decreases remaining
    {
      var c :| c in remaining;
      remaining := remaining - {c};
      if |commNodes[c]| >= 2 {
        remap := remap[c := commIndex];
        commIndex := commIndex + 1;
      }
    }
  }

  method LabelNodes(comm: Clustering, remap: map<Id, nat>) returns (nodeToComm: map<Id, nat>)
    ensures forall x :: x in nodeToComm <==> x in comm && comm[x] in remap
    ensures forall x :: x in nodeToComm ==> nodeToComm[x] == remap[comm[x]]
  {
    nodeToComm := map[];
    var remaining := comm.Keys;
    while remaining != {}
      invariant remaining <= comm.Keys
      invariant forall x :: x in nodeToComm <==> x in comm && x !in remaining && comm[x] in remap
      invariant forall x :: x in nodeToComm ==> nodeToComm[x] == remap[comm[x]]
      decreases remaining
    {
      var x :| x in remaining;
      remaining := remaining - {x};
      if comm[x] in remap {
        nodeToComm := nodeToComm[x := remap[comm[x]]];
      }
    }
  }

  /** A node is labelled exactly when it shares its community with another node, and two
      labelled nodes carry the same label exactly when they share their community. */
  ghost predicate Labelled(comm: Clustering, nodeToComm: map<Id, nat>)
  {
    && nodeToComm.Keys <= comm.Keys
    && (forall x :: x in comm ==> (x in nodeToComm <==> Accompanied(comm, x)))
    && (forall x, y :: x in nodeToComm && y in nodeToComm ==> (nodeToComm[x] == nodeToComm[y] <==> comm[x] == comm[y]))
  }

  ghost predicate Accompanied(comm: Clustering, x: Id)
  {
    exists y :: y in comm && x in comm && y != x && comm[y] == comm[x]
  }

  lemma AccompaniedIffTwo(nodes: set<Id>, comm: Clustering, commNodes: map<Id, seq<Id>>, x: Id)
    requires Partition(nodes, comm, commNodes) && x in nodes
    ensures Accompanied(comm, x) <==> |commNodes[comm[x]]| >= 2
  {
    var members := commNodes[comm[x]];
    if |members| >= 2 {
      var y := if members[0] == x then members[1] else members[0];
      assert y in members && y != x && y in nodes && comm[y] == comm[x];
    }
    if Accompanied(comm, x) {
      var y :| y in comm && y != x && comm[y] == comm[x];
      assert x in members && y in members;
    }
  }

  lemma LabelsMean(nodes: set<Id>, comm: Clustering, commNodes: map<Id, seq<Id>>, remap: map<Id, nat>, nodeToComm: map<Id, nat>)
    requires Partition(nodes, comm, commNodes) && Relabels(commNodes, remap, {})
    requires forall x :: x in nodeToComm <==> x in comm && comm[x] in remap
    requires forall x :: x in nodeToComm ==> nodeToComm[x] == remap[comm[x]]
    ensures Labelled(comm, nodeToComm)
  {
    forall x | x in comm
      ensures x in nodeToComm <==> Accompanied(comm, x)
    {
      AccompaniedIffTwo(nodes, comm, commNodes, x);
    }
  }

  /** Before rounding: the share of the community's total degree that stays inside it. */
  ghost function Cohesion(g: Weighted, comm: Clustering, c: Id): real
  {
    if Tot(g, comm, c) == 0.0 then 0.0 else Inner(g, comm, c) / Tot(g, comm, c)
  }

  /** The community holds exactly the nodes with its label, and its cohesion is theirs. */
  ghost predicate Describes(g: Weighted, comm: Clustering, nodeToComm: map<Id, nat>, c: Community)
  {
    && NoRepeats(c.members) && |c.members| >= 2
    && c.cohesion == Cohesion(g, comm, Of(comm, c.members[0])) && 0.0 <= c.cohesion <= 1.0
    && (forall x :: x in c.members <==> x in nodeToComm && nodeToComm[x] == c.id)
  }

  /** The communities listed are the labelled ones, each once. */
  ghost predicate Lists(g: Weighted, comm: Clustering, nodeToComm: map<Id, nat>, communities: seq<Community>)
  {
    && (forall k :: 0 <= k < |communities| ==> Describes(g, comm, nodeToComm, communities[k]))
    && (forall k, l :: 0 <= k < l < |communities| ==> communities[k].id != communities[l].id)
    && (forall x :: x in nodeToComm ==> Listed(communities, nodeToComm[x]))
  }

  ghost predicate Listed(communities: seq<Community>, id: nat)
  {
    exists k :: 0 <= k < |communities| && communities[k].id == id
  }

  /** communities[k] was built from the community from[k]; all but those left have been built. */
  ghost predicate BuiltFrom(remap: map<Id, nat>, communities: seq<Community>, from: seq<Id>, left: set<Id>)
  {
    && |from| == |communities| && NoRepeats(from)
    && (forall k :: 0 <= k < |from| ==> from[k] in remap && from[k] !in left && communities[k].id == remap[from[k]])
    && (forall c :: c in remap && c !in left ==> c in from)
  }

  method ListCommunities(g: Weighted, comm: Clustering, commNodes: map<Id, seq<Id>>, remap: map<Id, nat>, ghost nodeToComm: map<Id, nat>)
    returns (communities: seq<Community>, ghost from: seq<Id>)
    requires WellFormed(g) && Partition(g.nodes, comm, commNodes) && Relabels(commNodes, remap, {})
    requires forall x :: x in nodeToComm <==> x in comm && comm[x] in remap
    requires forall x :: x in nodeToComm ==> nodeToComm[x] == remap[comm[x]]
    ensures forall k :: 0 <= k < |communities| ==> Describes(g, comm, nodeToComm, communities[k])
    ensures BuiltFrom(remap, communities, from, {})
  {
    hide Describes, BuiltFrom, Partition, WellFormed;
    communities, from := [], [];
    var remaining := commNodes.Keys;
    NoneBuilt(commNodes, remap);
    while remaining != {}
      invariant remaining <= commNodes.Keys
      invariant forall k :: 0 <= k < |communities| ==> Describes(g, comm, nodeToComm, communities[k])
      invariant BuiltFrom(remap, communities, from, remaining)
      decreases remaining
    {
      var c :| c in remaining;
      if c in remap {
        var built := BuildCommunity(g, comm, commNodes, remap, nodeToComm, c);
        BuiltNext(remap, communities, from, remaining, c, built);
        communities, from := communities + [built], from + [c];
      } else {
        BuiltSkip(remap, communities, from, remaining, c);
      }
      remaining := remaining - {c};
    }
  }

  lemma NoneBuilt(commNodes: map<Id, seq<Id>>, remap: map<Id, nat>)
    requires Relabels(commNodes, remap, {})
    ensures BuiltFrom(remap, [], [], commNodes.Keys)
  {
  }

  lemma BuiltSkip(remap: map<Id, nat>, communities: seq<Community>, from: seq<Id>, left: set<Id>, c: Id)
    requires BuiltFrom(remap, communities, from, left) && c !in remap
    ensures BuiltFrom(remap, communities, from, left - {c})
  {
  }

  lemma BuiltNext(remap: map<Id, nat>, communities: seq<Community>, from: seq<Id>, left: set<Id>, c: Id, built: Community)
    requires BuiltFrom(remap, communities, from, left) && c in left && c in remap && built.id == remap[c]
    ensures BuiltFrom(remap, communities + [built], from + [c], left - {c})
  {
    assert forall d :: d in from + [c] <==> d in from || d == c;
  }

  method BuildCommunity(g: Weighted, comm: Clustering, commNodes: map<Id, seq<Id>>, remap: map<Id, nat>, ghost nodeToComm: map<Id, nat>, c: Id)
    returns (built: Community)
    requires WellFormed(g) && Partition(g.nodes, comm, commNodes) && Relabels(commNodes, remap, {}) && c in remap
    requires forall x :: x in nodeToComm <==> x in comm && comm[x] in remap
    requires forall x :: x in nodeToComm ==> nodeToComm[x] == remap[comm[x]]
    ensures built.id == remap[c] && Describes(g, comm, nodeToComm, built)
  {
    hide Tot, Inner;
    var members := commNodes[c];
    forall x
      ensures x in members <==> x in g.nodes && Of(comm, x) == c
    {
    }
    var cohesion := ComputeCohesion(g, members, comm, c);
    CohesionBounds(g, comm, c);
    RatioBounds(Inner(g, comm, c), Tot(g, comm, c));
    assert members[0] in members;
    built := Community(remap[c], members, cohesion);
  }

  lemma RatioBounds(a: real, b: real)
    requires 0.0 <= a <= b
    ensures b != 0.0 ==> 0.0 <= a / b <= 1.0
  {
  }

  lemma BuiltLists(g: Weighted, nodeToComm: map<Id, nat>, comm: Clustering, commNodes: map<Id, seq<Id>>, remap: map<Id, nat>, communities: seq<Community>, from: seq<Id>)
    requires Relabels(commNodes, remap, {}) && BuiltFrom(remap, communities, from, {})
    requires forall x :: x in nodeToComm ==> x in comm && comm[x] in remap && nodeToComm[x] == remap[comm[x]]
    requires forall k :: 0 <= k < |communities| ==> Describes(g, comm, nodeToComm, communities[k])
    ensures Lists(g, comm, nodeToComm, communities)
  {
    forall x | x in nodeToComm
      ensures Listed(communities, nodeToComm[x])
    {
      assert comm[x] in from;
      var k :| 0 <= k < |from| && from[k] == comm[x];
      assert communities[k].id == nodeToComm[x];
    }
  }

  lemma SortedLists(g: Weighted, comm: Clustering, nodeToComm: map<Id, nat>, communities: seq<Community>, sorted: seq<Community>, perm: seq<nat>)
    requires Lists(g, comm, nodeToComm, communities) && Permutes(perm, |communities|) && |sorted| == |communities|
    requires forall i :: 0 <= i < |communities| ==> sorted[i] == communities[perm[i]]
    ensures Lists(g, comm, nodeToComm, sorted)
  {
    forall k, l | 0 <= k < l < |sorted|
      ensures sorted[k].id != sorted[l].id
    {
      assert perm[k] < perm[l] || perm[l] < perm[k];
    }
    forall x | x in nodeToComm
      ensures Listed(sorted, nodeToComm[x])
    {
      assert Listed(communities, nodeToComm[x]);
      var k: nat :| k < |communities| && communities[k].id == nodeToComm[x];
      assert k in perm;
      var i :| 0 <= i < |perm| && perm[i] == k;
      assert sorted[i].id == nodeToComm[x];
    }
  }

  function Size(c: Community): int
  {
    |c.members|
  }

  ghost function SymbolIds(nodes: seq<Node>): set<Id>
  {
    set n | n in nodes && n.kind != FileNode && n.kind != ImportNode :: n.id
  }

  method CollectSymbols(nodes: seq<Node>) returns (symbols: set<Id>)
    ensures symbols == SymbolIds(nodes)
  {
    symbols := {};
    for i := 0 to |nodes|
      invariant forall id :: id in symbols <==> exists j :: 0 <= j < i && IsSymbol(nodes[j]) && nodes[j].id == id
    {
      if IsSymbol(nodes[i]) {
        symbols := symbols + {nodes[i].id};
      }
    }
    forall id
      ensures id in symbols <==> id in SymbolIds(nodes)
    {
      if id in SymbolIds(nodes) {
        var n :| n in nodes && IsSymbol(n) && n.id == id;
        var j :| 0 <= j < |nodes| && nodes[j] == n;
      }
    }
  }

  /** What the run leaves: the final state is consistent and was reached from singletons by passes
      that visit every node, until one moved nothing or ten were made; and the result says what
      the final clustering is. */
  ghost predicate Detected(g: Weighted, degree: map<Id, real>, s: State, passes: seq<seq<Move>>, r: CommunityResult)
  {
    && Consistent(g, s)
    && PassesOf(g, Singletons(g.nodes, degree).comm, passes, s.comm) && Finished(passes)
    && Labelled(s.comm, r.nodeToComm)
    && Lists(g, s.comm, r.nodeToComm, r.communities)
    && (forall i, j :: 0 <= i < j < |r.communities| ==> |r.communities[i].members| >= |r.communities[j].members|)
    && Mass(g) > 0.0 && r.modularity == Sum2(g.nodes, Reported(g, s.comm)) / Mass(g)
  }

  method Summarise(c: Clusterer) returns (r: CommunityResult)
    requires c.Prepared() && Consistent(c.g, c.Now())
    ensures Labelled(c.comm, r.nodeToComm) && Lists(c.g, c.comm, r.nodeToComm, r.communities)
    ensures forall i, j :: 0 <= i < j < |r.communities| ==> |r.communities[i].members| >= |r.communities[j].members|
    ensures Mass(c.g) > 0.0 && r.modularity == Sum2(c.g.nodes, Reported(c.g, c.comm)) / Mass(c.g)
  {
    hide Tot, Inner, Deg, Mass, Sum2, Sum;
    var remap := LabelCommunities(c.commNodes);
    var nodeToComm := LabelNodes(c.comm, remap);
    LabelsMean(c.g.nodes, c.comm, c.commNodes, remap, nodeToComm);
    var listed, from := ListCommunities(c.g, c.comm, c.commNodes, remap, nodeToComm);
    BuiltLists(c.g, nodeToComm, c.comm, c.commNodes, remap, listed, from);
    var sorted, perm := SortDescending(listed, Size);
    SortedLists(c.g, c.comm, nodeToComm, listed, sorted, perm);
    var q := ComputeModularity(c.g, c.comm, c.degree, c.totalWeight);
    r := CommunityResult(sorted, nodeToComm, q);
    forall i, j | 0 <= i < j < |sorted|
      ensures |sorted[i].members| >= |sorted[j].members|
    {
      assert Size(sorted[i]) >= Size(sorted[j]);
    }
  }

  /** Weights and totals of the graph of symbols. */
  method WeighGraph(symbols: set<Id>, edges: seq<Edge>) returns (g: Weighted, totalWeight: real)
    ensures GraphOf(symbols, edges, g) && totalWeight == Mass(g) / 2.0
  {
    hide Sum2, W, PairWeight, Mass;
    var weights := TallyWeights(symbols, edges);
    var nb := NeighborLists(weights);
    TalliedGraph(symbols, edges, weights, nb);
    g := Weighted(symbols, nb);
    totalWeight := TotalWeight(symbols, weights);
    CountAll(symbols, weights, g);
  }

  /** The local moves and the result built from them. */
  method Cluster(g: Weighted, totalWeight: real)
    returns (r: CommunityResult, ghost degree: map<Id, real>, ghost s: State, ghost passes: seq<seq<Move>>)
    requires WellFormed(g) && totalWeight == Mass(g) / 2.0 && totalWeight > 0.0
    ensures DegreesOf(g, degree) && Detected(g, degree, s, passes, r)
  {
    hide Sum, Sum2, Deg, Tot, Inner, Mass, WellFormed, Consistent, PassesOf, Labelled, Lists, DegreesOf;
    var deg := ComputeDegrees(g);
    degree := deg;
    var c := new Clusterer(g, deg, totalWeight);
    var improved;
    improved, passes := c.Run();
    r := Summarise(c);
    s := c.Now();
  }

  /** The result belongs to the weighted graph of these nodes and edges: empty without a weighted
      edge, otherwise read off the end of the passes. */
  ghost predicate ResultFor(nodes: seq<Node>, edges: seq<Edge>, r: CommunityResult,
                            g: Weighted, degree: map<Id, real>, s: State, passes: seq<seq<Move>>)
  {
    && GraphOf(SymbolIds(nodes), edges, g)
    && if Mass(g) == 0.0 then r == CommunityResult([], map[], 0.0)
       else DegreesOf(g, degree) && Detected(g, degree, s, passes, r)
  }

  /** The whole analysis. */
  method DetectCommunities(nodes: seq<Node>, edges: seq<Edge>) returns (r: CommunityResult)
    ensures exists g, degree, s, passes :: ResultFor(nodes, edges, r, g, degree, s, passes)
  {
    hide Mass, WellFormed, Detected, DegreesOf, W, PairWeight;
    var symbols := CollectSymbols(nodes);
    var graph, totalWeight := WeighGraph(symbols, edges);
    ghost var degree: map<Id, real> := map[];
    ghost var s, passes := State(map[], map[], map[], map[]), [];
    if totalWeight == 0.0 {
      r := CommunityResult([], map[], 0.0);
      assert ResultFor(nodes, edges, r, graph, degree, s, passes);
      return;
    }
    MassNonNegative(graph);
    r, degree, s, passes := Cluster(graph, totalWeight);
    assert ResultFor(nodes, edges, r, graph, degree, s, passes);
  }

  lemma MassNonNegative(g: Weighted)
    requires WellFormed(g)
    ensures Mass(g) >= 0.0
  {
    Sum2NonNegative(g.nodes, Weight(g));
  }
}
