/** internal/analysis/cycles.go, DetectCycles: one concrete, classified cycle for every
    group of mutually dependent symbols. */
module Cycles {
  import opened Reachability
  import opened Paths
  import opened Basics
  import opened CodeGraph
  import opened Tarjan
  import opened CyclePath
  import opened Sorting

  datatype CycleKind = ImportCycle | CrossCommunityCycle | CallCycle

  datatype Cycle = Cycle(path: seq<Id>, kind: CycleKind, severity: int)

  // ---------------------------------------------------------------- the graph that is searched

  /** Symbols whose file path starts with the scope; the empty scope admits every symbol. */
  ghost function InScope(nodes: seq<Node>, scope: string): set<Id>
  {
    set n | n in nodes && n.kind != FileNode && n.kind != ImportNode && scope <= n.filePath :: n.id
  }

  ghost function ScopedArcs(inScope: set<Id>, edges: seq<Edge>): Arcs
  {
    set a | a in DependencyArcs(edges) && a.0 in inScope && a.1 in inScope
  }

  ghost predicate HasKind(edges: seq<Edge>, u: Id, v: Id, k: EdgeKind)
  {
    exists e :: e in edges && e.from == u && e.to == v && e.kind == k
  }

  /** The adjacency and edge-kind tables hold exactly the scoped dependency edges. */
  ghost predicate Adjacency(inScope: set<Id>, edges: seq<Edge>, adj: map<Id, seq<Id>>, kinds: map<(Id, Id), seq<EdgeKind>>)
  {
    && (forall u, v :: (u in adj && v in adj[u]) <==> (u, v) in kinds)
    && (forall u, v {:trigger (u, v) in kinds} :: (u, v) in kinds <==> (u, v) in ScopedArcs(inScope, edges))
    && (forall u, v, k {:trigger HasKind(edges, u, v, k)} ::
          (u, v) in kinds ==> (k in kinds[(u, v)] <==> IsDependency(k) && HasKind(edges, u, v, k)))
  }

  lemma AddArc(inScope: set<Id>, edges: seq<Edge>, e: Edge)
    ensures ScopedArcs(inScope, edges + [e]) ==
      if IsDependency(e.kind) && e.from in inScope && e.to in inScope
      then ScopedArcs(inScope, edges) + {(e.from, e.to)} else ScopedArcs(inScope, edges)
  {
    forall a
      ensures a in DependencyArcs(edges + [e]) <==>
        a in DependencyArcs(edges) || (IsDependency(e.kind) && a == (e.from, e.to))
    {
      if a in DependencyArcs(edges) {
        var f :| f in edges && IsDependency(f.kind) && a == (f.from, f.to);
        assert f in edges + [e];
      }
      assert e in edges + [e];
    }
  }

  lemma AddKind(edges: seq<Edge>, e: Edge, u: Id, v: Id, k: EdgeKind)
    ensures HasKind(edges + [e], u, v, k) <==> HasKind(edges, u, v, k) || (e.from == u && e.to == v && e.kind == k)
  {
    if HasKind(edges, u, v, k) {
      var f :| f in edges && f.from == u && f.to == v && f.kind == k;
      assert f in edges + [e];
    }
    assert e in edges + [e];
  }

  lemma SkipEdge(inScope: set<Id>, edges: seq<Edge>, e: Edge, adj: map<Id, seq<Id>>, kinds: map<(Id, Id), seq<EdgeKind>>)
    requires Adjacency(inScope, edges, adj, kinds)
    requires !IsDependency(e.kind) || e.from !in inScope || e.to !in inScope
    ensures Adjacency(inScope, edges + [e], adj, kinds)
  {
    AddArc(inScope, edges, e);
    forall u, v, k | (u, v) in kinds
      ensures k in kinds[(u, v)] <==> IsDependency(k) && HasKind(edges + [e], u, v, k)
    {
      AddKind(edges, e, u, v, k);
      assert (u, v) in ScopedArcs(inScope, edges);
    }
  }

  function AddAdj(adj: map<Id, seq<Id>>, u: Id, v: Id): map<Id, seq<Id>>
  {
    adj[u := (if u in adj then adj[u] else []) + [v]]
  }

  function AddToKinds(kinds: map<(Id, Id), seq<EdgeKind>>, pair: (Id, Id), k: EdgeKind): map<(Id, Id), seq<EdgeKind>>
  {
    kinds[pair := (if pair in kinds then kinds[pair] else []) + [k]]
  }

  lemma ArcHasKind(inScope: set<Id>, edges: seq<Edge>, u: Id, v: Id, k: EdgeKind)
    requires u in inScope && v in inScope && IsDependency(k)
    ensures HasKind(edges, u, v, k) ==> (u, v) in ScopedArcs(inScope, edges)
  {
  }

  lemma RecordEdge(inScope: set<Id>, edges: seq<Edge>, e: Edge, adj: map<Id, seq<Id>>, kinds: map<(Id, Id), seq<EdgeKind>>)
    requires Adjacency(inScope, edges, adj, kinds)
    requires IsDependency(e.kind) && e.from in inScope && e.to in inScope
    ensures Adjacency(inScope, edges + [e],
      if (e.from, e.to) in kinds then adj else AddAdj(adj, e.from, e.to),
      AddToKinds(kinds, (e.from, e.to), e.kind))
  {
    AddArc(inScope, edges, e);
    hide ScopedArcs, HasKind, IsDependency;
    var kinds' := AddToKinds(kinds, (e.from, e.to), e.kind);
    forall u, v, k | (u, v) in kinds'
      ensures k in kinds'[(u, v)] <==> IsDependency(k) && HasKind(edges + [e], u, v, k)
    {
      AddKind(edges, e, u, v, k);
      if u in inScope && v in inScope && IsDependency(k) {
        ArcHasKind(inScope, edges, u, v, k);
      }
    }
  }

  method BuildAdjacency(inScope: set<Id>, edges: seq<Edge>)
    returns (adj: map<Id, seq<Id>>, kinds: map<(Id, Id), seq<EdgeKind>>)
    ensures Adjacency(inScope, edges, adj, kinds)
    ensures Within(inScope, adj) == ScopedArcs(inScope, edges)
  {
    adj, kinds := map[], map[];
    for i := 0 to |edges|
      invariant Adjacency(inScope, edges[..i], adj, kinds)
    {
      var e := edges[i];
      assert edges[..i + 1] == edges[..i] + [e];
      if !IsDependency(e.kind) {
        SkipEdge(inScope, edges[..i], e, adj, kinds);
        continue;
      }
      if e.from !in inScope || e.to !in inScope {
        SkipEdge(inScope, edges[..i], e, adj, kinds);
        continue;
      }
      RecordEdge(inScope, edges[..i], e, adj, kinds);
      var pair := (e.from, e.to);
      if pair !in kinds {
        adj := AddAdj(adj, e.from, e.to);
      }
      kinds := AddToKinds(kinds, pair, e.kind);
    }
    assert edges[..|edges|] == edges;
    AdjacencyArcs(inScope, edges, adj, kinds);
  }

  lemma AdjacencyArcs(inScope: set<Id>, edges: seq<Edge>, adj: map<Id, seq<Id>>, kinds: map<(Id, Id), seq<EdgeKind>>)
    requires Adjacency(inScope, edges, adj, kinds)
    ensures Within(inScope, adj) == ScopedArcs(inScope, edges)
  {
    forall u, v
      ensures (u, v) in Within(inScope, adj) <==> (u, v) in ScopedArcs(inScope, edges)
    {
      assert (u, v) in kinds <==> (u, v) in ScopedArcs(inScope, edges);
    }
    forall a | a in Within(inScope, adj)
      ensures a in ScopedArcs(inScope, edges)
    {
      assert a == (a.0, a.1);
    }
    forall a | a in ScopedArcs(inScope, edges)
      ensures a in Within(inScope, adj)
    {
      assert a == (a.0, a.1);
    }
  }

  // ---------------------------------------------------------------- classification

  ghost predicate ImportAt(edges: seq<Edge>, path: seq<Id>, i: int)
  {
    0 <= i < |path| && HasKind(edges, path[i], path[(i + 1) % |path|], Imports)
  }

  /** Some step of the cycle, the closing one included, is an import edge. */
  ghost predicate HasImport(edges: seq<Edge>, path: seq<Id>)
  {
    exists i :: ImportAt(edges, path, i)
  }

  /** Two nodes of the cycle belong to different communities. */
  ghost predicate SpansCommunities(nodeToComm: map<Id, Id>, path: seq<Id>)
  {
    exists x, y :: x in path && y in path && x in nodeToComm && y in nodeToComm && nodeToComm[x] != nodeToComm[y]
  }

  ghost predicate Classified(edges: seq<Edge>, communities: Option<map<Id, Id>>, c: Cycle)
  {
    if HasImport(edges, c.path) then c.kind == ImportCycle && c.severity == 3
    else if communities.Some? && SpansCommunities(communities.value, c.path) then
      c.kind == CrossCommunityCycle && c.severity == 2
    else c.kind == CallCycle && c.severity == 1
  }

  lemma NextIndex(i: nat, n: nat)
    requires i < n
    ensures (i + 1) % n == if i + 1 < n then i + 1 else 0
  {
  }

  /** Every pair the classifier looks up on a cycle is a recorded arc. */
  lemma CycleHop(arcs: Arcs, path: seq<Id>, i: nat)
    requires IsCycle(arcs, path) && i < |path|
    ensures (path[i], path[(i + 1) % |path|]) in arcs
  {
    NextIndex(i, |path|);
    hide NoRepeats;
    if i + 1 < |path| {
      assert Hop(arcs, path, i + 1);
    }
  }

  method ScanImports(path: seq<Id>, kinds: map<(Id, Id), seq<EdgeKind>>, ghost inScope: set<Id>, ghost edges: seq<Edge>, ghost adj: map<Id, seq<Id>>)
    returns (hasImport: bool)
    requires Adjacency(inScope, edges, adj, kinds) && IsCycle(ScopedArcs(inScope, edges), path)
    ensures hasImport <==> HasImport(edges, path)
  {
    hasImport := false;
    var i := 0;
    while i < |path| && !hasImport
      invariant 0 <= i <= |path|
      invariant hasImport ==> HasImport(edges, path)
      invariant !hasImport ==> forall j :: 0 <= j < i ==> !ImportAt(edges, path, j)
    {
      var pair := (path[i], path[(i + 1) % |path|]);
      CycleHop(ScopedArcs(inScope, edges), path, i);
      assert pair in kinds;
      hasImport := Imports in kinds[pair];
      assert hasImport <==> ImportAt(edges, path, i);
      i := i + 1;
    }
  }

  method CountCommunities(path: seq<Id>, nodeToComm: map<Id, Id>) returns (many: bool)
    ensures many <==> SpansCommunities(nodeToComm, path)
  {
    var communitySet: set<Id> := {};
    for i := 0 to |path|
      invariant forall c :: c in communitySet <==> exists j :: 0 <= j < i && path[j] in nodeToComm && nodeToComm[path[j]] == c
    {
      if path[i] in nodeToComm {
        communitySet := communitySet + {nodeToComm[path[i]]};
      }
    }
    many := |communitySet| > 1;
    if many {
      ghost var c :| c in communitySet;
      assert |communitySet - {c}| > 0;
      ghost var d :| d in communitySet - {c};
      ghost var i :| 0 <= i < |path| && path[i] in nodeToComm && nodeToComm[path[i]] == c;
      ghost var j :| 0 <= j < |path| && path[j] in nodeToComm && nodeToComm[path[j]] == d;
      assert path[i] in path && path[j] in path;
    } else if SpansCommunities(nodeToComm, path) {
      ghost var x, y :| x in path && y in path && x in nodeToComm && y in nodeToComm && nodeToComm[x] != nodeToComm[y];
      assert {nodeToComm[x], nodeToComm[y]} <= communitySet;
      SubsetSize({nodeToComm[x], nodeToComm[y]}, communitySet);
    }
  }

  lemma SubsetSize(s: set<Id>, t: set<Id>)
    requires s <= t
    ensures |s| <= |t|
  {
    assert t == s + (t - s);
  }

  method ClassifyCycle(path: seq<Id>, kinds: map<(Id, Id), seq<EdgeKind>>, communities: Option<map<Id, Id>>,
                       ghost inScope: set<Id>, ghost edges: seq<Edge>, ghost adj: map<Id, seq<Id>>)
    returns (kind: CycleKind, severity: int)
    requires Adjacency(inScope, edges, adj, kinds) && IsCycle(ScopedArcs(inScope, edges), path)
    ensures Classified(edges, communities, Cycle(path, kind, severity))
  {
    var hasImport := ScanImports(path, kinds, inScope, edges, adj);
    if hasImport {
      return ImportCycle, 3;
    }
    if communities.Some? {
      var many := CountCommunities(path, communities.value);
      if many {
        return CrossCommunityCycle, 2;
      }
    }
    return CallCycle, 1;
  }

  // ---------------------------------------------------------------- the detector

  /** Distinct entries come from distinct components. */
  ghost predicate OnePerComponent(arcs: Arcs, cycles: seq<Cycle>)
  {
    && (forall i :: 0 <= i < |cycles| ==> IsCycle(arcs, cycles[i].path))
    && (forall i, j :: 0 <= i < j < |cycles| ==> !Mutual(arcs, cycles[i].path[0], cycles[j].path[0]))
  }

  /** u's component is represented. */
  ghost predicate Represented(arcs: Arcs, cycles: seq<Cycle>, u: Id)
  {
    exists i :: 0 <= i < |cycles| && cycles[i].path != [] && Mutual(arcs, cycles[i].path[0], u)
  }

  /** Every component of two or more nodes is represented. */
  ghost predicate Complete(arcs: Arcs, cycles: seq<Cycle>)
  {
    forall u, v {:trigger Mutual(arcs, u, v)} :: u != v && Mutual(arcs, u, v) ==> Represented(arcs, cycles, u)
  }

  ghost predicate AllClassified(edges: seq<Edge>, communities: Option<map<Id, Id>>, cycles: seq<Cycle>)
  {
    forall i :: 0 <= i < |cycles| ==> Classified(edges, communities, cycles[i])
  }

  /** cycles[i] was read off the component src[i]; every component of two or more nodes before k was read. */
  ghost predicate ReadOff(sccs: seq<seq<Id>>, k: nat, cycles: seq<Cycle>, src: seq<nat>)
  {
    && |src| == |cycles|
    && (forall i :: 0 <= i < |src| ==> src[i] < k && src[i] < |sccs| && cycles[i].path != [] && cycles[i].path[0] in sccs[src[i]])
    && (forall i, j :: 0 <= i < j < |src| ==> src[i] < src[j])
    && (forall l: nat :: l < k && l < |sccs| && |sccs[l]| >= 2 ==> l in src)
  }

  lemma ReadOffDistinct(arcs: Arcs, sccs: seq<seq<Id>>, cycles: seq<Cycle>, src: seq<nat>)
    requires Components(arcs, sccs) && ReadOff(sccs, |sccs|, cycles, src)
    requires forall i :: 0 <= i < |cycles| ==> IsCycle(arcs, cycles[i].path)
    ensures OnePerComponent(arcs, cycles)
  {
    forall i, j | 0 <= i < j < |cycles|
      ensures !Mutual(arcs, cycles[i].path[0], cycles[j].path[0])
    {
      assert IsClass(arcs, sccs[src[i]]);
      assert cycles[j].path[0] in sccs[src[j]];
    }
  }

  lemma ReadOffRepresents(arcs: Arcs, sccs: seq<seq<Id>>, cycles: seq<Cycle>, src: seq<nat>, u: Id, v: Id)
    requires Components(arcs, sccs) && ReadOff(sccs, |sccs|, cycles, src)
    requires u in Emitted(sccs) && u != v && Mutual(arcs, u, v)
    ensures Represented(arcs, cycles, u)
  {
    var l: nat :| l < |sccs| && u in sccs[l];
    assert IsClass(arcs, sccs[l]);
    assert u in sccs[l] && v in sccs[l];
    assert l in src;
    var i :| 0 <= i < |src| && src[i] == l;
    assert Mutual(arcs, cycles[i].path[0], u);
  }

  /** A node mutually reachable with another one has an outgoing arc. */
  lemma MutualHasArc(arcs: Arcs, u: Id, v: Id)
    requires u != v && Reach(arcs, u, v)
    ensures exists w :: (u, w) in arcs
  {
    var n: nat :| Walk(arcs, n, u, v);
  }

  lemma ReadOffComplete(inScope: set<Id>, edges: seq<Edge>, sccs: seq<seq<Id>>, cycles: seq<Cycle>, src: seq<nat>)
    requires Components(ScopedArcs(inScope, edges), sccs) && Emitted(sccs) == inScope
    requires ReadOff(sccs, |sccs|, cycles, src)
    ensures Complete(ScopedArcs(inScope, edges), cycles)
  {
    var arcs := ScopedArcs(inScope, edges);
    forall u, v | u != v && Mutual(arcs, u, v)
      ensures Represented(arcs, cycles, u)
    {
      MutualHasArc(arcs, u, v);
      ReadOffRepresents(arcs, sccs, cycles, src, u, v);
    }
  }

  /** Rearranging the list loses and adds nothing. */
  lemma Rearranged(arcs: Arcs, cycles: seq<Cycle>, sorted: seq<Cycle>, perm: seq<nat>)
    requires OnePerComponent(arcs, cycles) && Complete(arcs, cycles)
    requires Permutes(perm, |cycles|) && |sorted| == |cycles|
    requires forall i :: 0 <= i < |cycles| ==> sorted[i] == cycles[perm[i]]
    ensures OnePerComponent(arcs, sorted) && Complete(arcs, sorted)
  {
    forall i, j | 0 <= i < j < |sorted|
      ensures !Mutual(arcs, sorted[i].path[0], sorted[j].path[0])
    {
      assert perm[i] < perm[j] || perm[j] < perm[i];
    }
    forall u, v | u != v && Mutual(arcs, u, v)
      ensures Represented(arcs, sorted, u)
    {
      assert Represented(arcs, cycles, u);
      var k: nat :| k < |cycles| && cycles[k].path != [] && Mutual(arcs, cycles[k].path[0], u);
      assert k in perm;
      var i :| 0 <= i < |perm| && perm[i] == k;
      assert sorted[i] == cycles[k];
    }
  }

  method ExtractCycles(inScope: set<Id>, edges: seq<Edge>, communities: Option<map<Id, Id>>,
                       adj: map<Id, seq<Id>>, kinds: map<(Id, Id), seq<EdgeKind>>, sccs: seq<seq<Id>>)
    returns (cycles: seq<Cycle>, ghost src: seq<nat>)
    requires Adjacency(inScope, edges, adj, kinds) && Within(inScope, adj) == ScopedArcs(inScope, edges)
    requires Emitted(sccs) == inScope && Components(ScopedArcs(inScope, edges), sccs)
    ensures forall i :: 0 <= i < |cycles| ==> IsCycle(ScopedArcs(inScope, edges), cycles[i].path)
    ensures AllClassified(edges, communities, cycles)
    ensures ReadOff(sccs, |sccs|, cycles, src)
  {
    hide Adjacency, Within, ScopedArcs, Components, Emitted, Classified, IsCycle;
    ghost var arcs := ScopedArcs(inScope, edges);
    cycles, src := [], [];
    for k := 0 to |sccs|
      invariant forall i :: 0 <= i < |cycles| ==> IsCycle(arcs, cycles[i].path)
      invariant AllClassified(edges, communities, cycles)
      invariant ReadOff(sccs, k, cycles, src)
    {
      var scc := sccs[k];
      if |scc| < 2 {
        continue;
      }
      var c := ExtractCycle(inScope, edges, communities, adj, kinds, sccs, k);
      ReadOffNext(sccs, k, cycles, src, c);
      cycles, src := cycles + [c], src + [k];
    }
  }

  /** One component of two or more nodes: its cycle is found, never the fallback. */
  method ExtractCycle(inScope: set<Id>, ghost edges: seq<Edge>, communities: Option<map<Id, Id>>,
                      adj: map<Id, seq<Id>>, kinds: map<(Id, Id), seq<EdgeKind>>, sccs: seq<seq<Id>>, k: nat)
    returns (c: Cycle)
    requires Adjacency(inScope, edges, adj, kinds) && Within(inScope, adj) == ScopedArcs(inScope, edges)
    requires Emitted(sccs) == inScope && Components(ScopedArcs(inScope, edges), sccs)
    requires k < |sccs| && |sccs[k]| >= 2
    ensures IsCycle(ScopedArcs(inScope, edges), c.path) && c.path != [] && c.path[0] in sccs[k]
    ensures Classified(edges, communities, c)
  {
    ComponentOnCycle(inScope, adj, sccs[k]);
    var path := OrderCyclePath(sccs[k], adj);
    ComponentCycle(inScope, adj, sccs, k, path);
    var kind, severity := ClassifyCycle(path, kinds, communities, inScope, edges, adj);
    c := Cycle(path, kind, severity);
  }

  lemma ComponentCycle(inScope: set<Id>, adj: map<Id, seq<Id>>, sccs: seq<seq<Id>>, k: nat, path: seq<Id>)
    requires k < |sccs| && Emitted(sccs) == inScope && IsCycle(Within(Items(sccs[k]), adj), path)
    ensures IsCycle(Within(inScope, adj), path)
  {
    forall x | x in sccs[k]
      ensures x in inScope
    {
    }
    assert Within(Items(sccs[k]), adj) <= Within(inScope, adj);
    PathMono(Within(Items(sccs[k]), adj), Within(inScope, adj), path);
  }

  lemma ReadOffNext(sccs: seq<seq<Id>>, k: nat, cycles: seq<Cycle>, src: seq<nat>, c: Cycle)
    requires ReadOff(sccs, k, cycles, src) && k < |sccs| && c.path != [] && c.path[0] in sccs[k]
    ensures ReadOff(sccs, k + 1, cycles + [c], src + [k])
  {
    forall l: nat | l < k + 1 && |sccs[l]| >= 2
      ensures l in src + [k]
    {
      if l == k {
        assert (src + [k])[|src|] == k;
      }
    }
  }

  /** Every reported cycle is a simple directed cycle of the scoped graph with a real closing
      edge and the right classification; there is exactly one for each component of two or
      more nodes; the most severe come first. */
  method DetectCycles(nodes: seq<Node>, edges: seq<Edge>, communities: Option<map<Id, Id>>, scope: string)
    returns (cycles: seq<Cycle>)
    ensures OnePerComponent(ScopedArcs(InScope(nodes, scope), edges), cycles)
    ensures Complete(ScopedArcs(InScope(nodes, scope), edges), cycles)
    ensures AllClassified(edges, communities, cycles)
    ensures forall i, j :: 0 <= i < j < |cycles| ==> cycles[i].severity >= cycles[j].severity
  {
    var inScope: set<Id> := {};
    for i := 0 to |nodes|
      invariant inScope == InScope(nodes[..i], scope)
    {
      var n := nodes[i];
      assert nodes[..i + 1] == nodes[..i] + [n];
      if n.kind == FileNode || n.kind == ImportNode {
        continue;
      }
      if scope != "" && !(scope <= n.filePath) {
        continue;
      }
      inScope := inScope + {n.id};
    }
    assert nodes[..|nodes|] == nodes;
    var adj, kinds := BuildAdjacency(inScope, edges);
    var sccs := TarjanSCC(inScope, adj);
    var found, src := ExtractCycles(inScope, edges, communities, adj, kinds, sccs);
    ReadOffDistinct(ScopedArcs(inScope, edges), sccs, found, src);
    ReadOffComplete(inScope, edges, sccs, found, src);
    ghost var perm;
    var severity := (c: Cycle) => c.severity;
    cycles, perm := SortDescending(found, severity);
    assert forall i, j :: 0 <= i < j < |cycles| ==> severity(cycles[i]) >= severity(cycles[j]);
    Rearranged(ScopedArcs(inScope, edges), found, cycles, perm);
  }

  /** What any list meeting DetectCycles's contract tells: it is empty exactly when no simple
      directed cycle runs through two or more nodes, and no node is on two reported cycles. */
  lemma DetectorVerdict(arcs: Arcs, cycles: seq<Cycle>)
    requires OnePerComponent(arcs, cycles) && Complete(arcs, cycles)
    ensures cycles == [] <==> !Cyclic(arcs)
    ensures Cyclic(arcs) <==> exists c :: IsCycle(arcs, c)
    ensures forall i, j, x :: 0 <= i < j < |cycles| && x in cycles[i].path ==> x !in cycles[j].path
  {
    if cycles != [] {
      var c := cycles[0].path;
      CycleMutual(arcs, c, 0, 1);
      assert c[0] != c[1];
    }
    forall c | IsCycle(arcs, c)
      ensures Cyclic(arcs)
    {
      CycleMutual(arcs, c, 0, 1);
      assert c[0] != c[1];
    }
    if Cyclic(arcs) {
      var u, v :| u != v && Mutual(arcs, u, v);
      assert Represented(arcs, cycles, u);
    }
    forall i, j, x | 0 <= i < j < |cycles| && x in cycles[i].path
      ensures x !in cycles[j].path
    {
      if x in cycles[j].path {
        SharedNode(arcs, cycles[i].path, cycles[j].path, x);
      }
    }
  }

  lemma SharedNode(arcs: Arcs, c: seq<Id>, d: seq<Id>, x: Id)
    requires IsCycle(arcs, c) && IsCycle(arcs, d) && x in c && x in d
    ensures Mutual(arcs, c[0], d[0])
  {
    var i :| 0 <= i < |c| && c[i] == x;
    var j :| 0 <= j < |d| && d[j] == x;
    CycleMutual(arcs, c, 0, i);
    CycleMutual(arcs, d, j, 0);
    MutualTrans(arcs, c[0], x, d[0]);
  }
}
