/** internal/analysis/cycles.go, WouldCreateCycle: does adding an edge close a cycle?
    And what its answer means for DetectCycles. */
module CycleGuard {
  import opened Reachability
  import opened Paths
  import opened Basics
  import opened CodeGraph
  import opened Cycles
  import opened CyclePath

  // ---------------------------------------------------------------- the search

  /** Nodes whose call has returned without success: not the target, and all successors visited. */
  ghost predicate Explored(arcs: Arcs, target: Id, visited: set<Id>, open: set<Id>)
  {
    && target !in visited
    && (forall u, w :: u in visited && u !in open && (u, w) in arcs ==> w in visited)
  }

  lemma ExploredNoReach(arcs: Arcs, target: Id, visited: set<Id>, root: Id)
    requires Explored(arcs, target, visited, {}) && root in visited
    ensures !Reach(arcs, root, target)
  {
    if Reach(arcs, root, target) {
      ReachClosed(arcs, visited, root, target);
    }
  }

  /** The arcs recorded in an adjacency table. */
  ghost function TableArcs(adj: map<Id, seq<Id>>): Arcs
  {
    set u, w | u in adj && w in adj[u] :: (u, w)
  }

  ghost function Heads(arcs: Arcs): set<Id>
  {
    set a | a in arcs :: a.1
  }

  class PathSearch {
    const fromId: Id
    const adj: map<Id, seq<Id>>
    var visited: set<Id>
    var parent: map<Id, Id>
    var found: bool

    constructor (fromId: Id, toId: Id, adj: map<Id, seq<Id>>)
      ensures this.fromId == fromId && this.adj == adj
      ensures visited == {} && !found && parent == map[toId := ""]
    {
      this.fromId, this.adj := fromId, adj;
      visited, parent, found := {}, map[toId := ""], false;
    }

    /** trail: on success, the chain from the root to fromId that the parent map records. */
    method Dfs(node: Id, ghost chain: seq<Id>, ghost all: set<Id>) returns (ghost trail: seq<Id>)
      requires IsChain(TableArcs(adj), parent, chain) && chain[|chain| - 1] == node
      requires Heads(TableArcs(adj)) <= all && node in all
      requires node !in visited && Items(chain) <= visited + {node} && visited <= all
      requires Explored(TableArcs(adj), fromId, visited, Items(chain))
      requires !found
      modifies this
      ensures found ==>
        && IsChain(TableArcs(adj), parent, trail)
        && trail[0] == chain[0] && trail[|trail| - 1] == fromId
      ensures !found ==>
        && old(visited) + {node} <= visited <= all
        && ParentsKept(old(visited) + {node}, old(parent), parent)
        && Explored(TableArcs(adj), fromId, visited, Items(chain) - {node})
      decreases all - visited
    {
      trail := chain;
      if node == fromId {
        found := true;
        return;
      }
      ghost var arcs := TableArcs(adj);
      visited := visited + {node};
      var succs := if node in adj then adj[node] else [];
      for i := 0 to |succs|
        invariant !found
        invariant old(visited) + {node} <= visited <= all
        invariant ParentsKept(old(visited) + {node}, old(parent), parent)
        invariant Explored(arcs, fromId, visited, Items(chain))
        invariant forall j :: 0 <= j < i ==> succs[j] in visited
      {
        var next := succs[i];
        assert (node, next) in arcs;
        if next !in visited {
          KeepChain(arcs, old(parent), parent, chain);
          ExtendChain(arcs, parent, chain, next);
          parent := parent[next := node];
          assert next in Heads(arcs);
          assert Items(chain + [next]) - {next} == Items(chain);
          trail := Dfs(next, chain + [next], all);
          if found {
            return;
          }
        }
      }
    }
  }

  ghost predicate SeenMatches(seen: map<Id, set<Id>>, adj: map<Id, seq<Id>>)
  {
    forall u, v :: (u in adj && v in adj[u]) <==> (u in seen && v in seen[u])
  }

  lemma AppendEdge(edges: seq<Edge>, e: Edge)
    ensures DependencyArcs(edges + [e]) ==
      DependencyArcs(edges) + (if IsDependency(e.kind) then {(e.from, e.to)} else {})
  {
    forall a | a in DependencyArcs(edges) + (if IsDependency(e.kind) then {(e.from, e.to)} else {})
      ensures a in DependencyArcs(edges + [e])
    {
      if a in DependencyArcs(edges) {
        var f :| f in edges && IsDependency(f.kind) && a == (f.from, f.to);
        assert f in edges + [e];
      } else {
        assert e in edges + [e];
      }
    }
  }

  lemma TableArcsAdd(adj: map<Id, seq<Id>>, u: Id, v: Id)
    ensures TableArcs(AddAdj(adj, u, v)) == TableArcs(adj) + {(u, v)}
  {
    var more := AddAdj(adj, u, v);
    assert u in more && v in more[u];
    forall a | a in TableArcs(adj)
      ensures a in TableArcs(more)
    {
      assert a.0 in more && a.1 in more[a.0];
    }
  }

  method DependencyTable(edges: seq<Edge>) returns (adj: map<Id, seq<Id>>)
    ensures TableArcs(adj) == DependencyArcs(edges)
  {
    adj := map[];
    var seen: map<Id, set<Id>> := map[];
    for i := 0 to |edges|
      invariant SeenMatches(seen, adj)
      invariant TableArcs(adj) == DependencyArcs(edges[..i])
    {
      var e := edges[i];
      assert edges[..i + 1] == edges[..i] + [e];
      AppendEdge(edges[..i], e);
      if !IsDependency(e.kind) {
        continue;
      }
      if e.from !in seen {
        seen := seen[e.from := {}];
      }
      if e.to !in seen[e.from] {
        TableArcsAdd(adj, e.from, e.to);
        seen := seen[e.from := seen[e.from] + {e.to}];
        adj := AddAdj(adj, e.from, e.to);
      } else {
        assert e.from in adj && e.to in adj[e.from];
        assert (e.from, e.to) in TableArcs(adj);
      }
    }
    assert edges[..|edges|] == edges;
  }

  /** True exactly when `fromId` can be reached from `toId`; the path returned is a simple
      path of existing edges from `toId` to `fromId`. */
  method WouldCreateCycle(edges: seq<Edge>, fromId: Id, toId: Id) returns (cyclic: bool, path: seq<Id>)
    ensures cyclic <==> Reach(DependencyArcs(edges), toId, fromId)
    ensures cyclic ==> IsPath(DependencyArcs(edges), path) && path[0] == toId && path[|path| - 1] == fromId
    ensures !cyclic ==> path == []
  {
    var adj := DependencyTable(edges);
    ghost var arcs := TableArcs(adj);
    var search := new PathSearch(fromId, toId, adj);
    assert Items([toId]) == {toId};
    ghost var trail := search.Dfs(toId, [toId], Heads(arcs) + {toId});
    if !search.found {
      assert Items([toId]) - {toId} == {};
      ExploredNoReach(arcs, fromId, search.visited, toId);
      return false, [];
    }
    path := Unwind(search.parent, toId, fromId, arcs, trail);
    PathReach(arcs, path, 0, |path| - 1);
    cyclic := true;
  }

  // ---------------------------------------------------------------- what the answer means

  /** A walk that may use one extra arc either avoids it or leads up to it and away from it. */
  lemma {:induction false} WalkThroughNewArc(arcs: Arcs, f: Id, t: Id, n: nat, u: Id, v: Id)
    requires Walk(arcs + {(f, t)}, n, u, v)
    ensures Reach(arcs, u, v) || (Reach(arcs, u, f) && Reach(arcs, t, v))
    decreases n
  {
    ReachRefl(arcs, u);
    if n > 0 {
      var w :| (u, w) in arcs + {(f, t)} && Walk(arcs + {(f, t)}, n - 1, w, v);
      WalkThroughNewArc(arcs, f, t, n - 1, w, v);
      if (u, w) in arcs {
        if Reach(arcs, w, v) {
          ReachCons(arcs, u, w, v);
        } else {
          ReachCons(arcs, u, w, f);
        }
      }
    }
  }

  lemma ReachThroughNewArc(arcs: Arcs, f: Id, t: Id, u: Id, v: Id)
    requires Reach(arcs + {(f, t)}, u, v)
    ensures Reach(arcs, u, v) || (Reach(arcs, u, f) && Reach(arcs, t, v))
  {
    var n: nat :| Walk(arcs + {(f, t)}, n, u, v);
    WalkThroughNewArc(arcs, f, t, n, u, v);
  }

  /** If the new arc closes a loop through two nodes, its target already reached its source. */
  lemma LoopNeedsReturn(arcs: Arcs, f: Id, t: Id, u: Id, v: Id)
    requires Mutual(arcs + {(f, t)}, u, v) && !Mutual(arcs, u, v)
    ensures Reach(arcs, t, f)
  {
    ReachThroughNewArc(arcs, f, t, u, v);
    ReachThroughNewArc(arcs, f, t, v, u);
    if !Reach(arcs, u, v) {
      if Reach(arcs, v, u) {
        ReachTrans(arcs, t, v, u);
        ReachTrans(arcs, t, u, f);
      } else {
        ReachTrans(arcs, t, v, f);
      }
    } else {
      ReachTrans(arcs, t, u, v);
      ReachTrans(arcs, t, v, f);
    }
  }

  /** Exactly when one more arc makes an acyclic graph cyclic. */
  lemma NewArcCloses(arcs: Arcs, f: Id, t: Id)
    requires !Cyclic(arcs)
    ensures Cyclic(arcs + {(f, t)}) <==> f != t && Reach(arcs, t, f)
  {
    var more := arcs + {(f, t)};
    if Cyclic(more) {
      var u, v :| u != v && Mutual(more, u, v);
      LoopNeedsReturn(arcs, f, t, u, v);
      if f == t {
        SelfArc(arcs, f, u, v);
        SelfArc(arcs, f, v, u);
      }
    }
    if f != t && Reach(arcs, t, f) {
      ReachMono(arcs, more, t, f);
      ReachArc(more, f, t);
      assert Mutual(more, f, t);
    }
  }

  lemma SelfArc(arcs: Arcs, f: Id, u: Id, v: Id)
    requires Reach(arcs + {(f, f)}, u, v)
    ensures Reach(arcs, u, v)
  {
    ReachThroughNewArc(arcs, f, f, u, v);
    if !Reach(arcs, u, v) {
      ReachTrans(arcs, u, f, v);
    }
  }

  /** The graph DetectCycles sees without a scope. */
  ghost function SymbolArcs(nodes: seq<Node>, edges: seq<Edge>): Arcs
  {
    ScopedArcs(InScope(nodes, ""), edges)
  }

  /** The guard is sound for the detector: on a graph without cycles, an edge that the guard
      lets through leaves it without cycles. */
  lemma GuardSound(nodes: seq<Node>, edges: seq<Edge>, e: Edge)
    requires !Cyclic(SymbolArcs(nodes, edges))
    requires !Reach(DependencyArcs(edges), e.to, e.from)
    ensures !Cyclic(SymbolArcs(nodes, edges + [e]))
  {
    var arcs := SymbolArcs(nodes, edges);
    AddArc(InScope(nodes, ""), edges, e);
    if Cyclic(arcs + {(e.from, e.to)}) {
      NewArcCloses(arcs, e.from, e.to);
      ReachMono(arcs, DependencyArcs(edges), e.to, e.from);
    }
  }

  /** The guard in front of an addition, and the detector before and after it. */
  method AddGuarded(nodes: seq<Node>, edges: seq<Edge>, e: Edge, communities: Option<map<Id, Id>>)
    returns (edges': seq<Edge>, added: bool, before: seq<Cycle>, after: seq<Cycle>)
    ensures edges' == if added then edges + [e] else edges
    ensures added <==> !Reach(DependencyArcs(edges), e.to, e.from)
    ensures before == [] <==> !Cyclic(SymbolArcs(nodes, edges))
    ensures after == [] <==> !Cyclic(SymbolArcs(nodes, edges'))
    ensures before == [] ==> after == []
  {
    hide OnePerComponent, Complete, AllClassified, Cyclic, ScopedArcs, DependencyArcs, InScope;
    before := DetectCycles(nodes, edges, communities, "");
    DetectorVerdict(SymbolArcs(nodes, edges), before);
    var cyclic, path := WouldCreateCycle(edges, e.from, e.to);
    added := !cyclic;
    edges' := if added then edges + [e] else edges;
    if before == [] && added {
      GuardSound(nodes, edges, e);
    }
    after := DetectCycles(nodes, edges', communities, "");
    DetectorVerdict(SymbolArcs(nodes, edges'), after);
  }

  /** So any sequence of guarded additions stays free of cycles. */
  lemma {:induction false} GuardedRunSound(nodes: seq<Node>, edges: seq<Edge>, added: seq<Edge>)
    requires !Cyclic(SymbolArcs(nodes, edges))
    requires forall k :: 0 <= k < |added| ==> !Reach(DependencyArcs(edges + added[..k]), added[k].to, added[k].from)
    ensures !Cyclic(SymbolArcs(nodes, edges + added))
    decreases |added|
  {
    if added == [] {
      assert edges + added == edges;
    } else {
      var n := |added| - 1;
      forall k | 0 <= k < n
        ensures !Reach(DependencyArcs(edges + added[..n][..k]), added[..n][k].to, added[..n][k].from)
      {
        assert added[..n][..k] == added[..k];
      }
      GuardedRunSound(nodes, edges, added[..n]);
      GuardSound(nodes, edges + added[..n], added[n]);
      assert edges + added[..n] + [added[n]] == edges + added;
    }
  }

  /** When exactly an added dependency edge makes the detector report something. */
  lemma GuardExact(nodes: seq<Node>, edges: seq<Edge>, e: Edge)
    requires !Cyclic(SymbolArcs(nodes, edges))
    ensures Cyclic(SymbolArcs(nodes, edges + [e])) <==>
      && IsDependency(e.kind) && e.from in InScope(nodes, "") && e.to in InScope(nodes, "")
      && e.from != e.to && Reach(SymbolArcs(nodes, edges), e.to, e.from)
  {
    AddArc(InScope(nodes, ""), edges, e);
    NewArcCloses(SymbolArcs(nodes, edges), e.from, e.to);
  }

  function PlainNode(id: Id, kind: NodeKind): Node
  {
    Node(id, kind, id, id, "main.go", 1, 1, "go", "", map[])
  }

  /** The guard is stricter than the detector: a way back that runs through a file node makes
      the guard object, yet DetectCycles reports nothing after the edge is added. */
  lemma GuardStricterThanDetector() returns (nodes: seq<Node>, edges: seq<Edge>, e: Edge)
    ensures !Cyclic(SymbolArcs(nodes, edges)) && e.from != e.to
    ensures Reach(DependencyArcs(edges), e.to, e.from)
    ensures !Cyclic(SymbolArcs(nodes, edges + [e]))
  {
    nodes := [PlainNode("a", FunctionNode), PlainNode("b", FunctionNode), PlainNode("f", FileNode)];
    var back, on := PlainEdge("b", "f", Imports), PlainEdge("f", "a", Imports);
    edges, e := [back, on], PlainEdge("a", "b", Calls);
    var all, seen := DependencyArcs(edges), SymbolArcs(nodes, edges);
    assert back in edges && on in edges;
    assert ("b", "f") in all && ("f", "a") in all;
    ReachArc(all, "f", "a");
    ReachCons(all, "b", "f", "a");
    assert "f" !in InScope(nodes, "");
    assert seen == {};
    NoArcs(seen);
    assert !Reach(seen, "b", "a") by {
      if Reach(seen, "b", "a") {
        MutualHasArc(seen, "b", "a");
      }
    }
    GuardExact(nodes, edges, e);
  }

  lemma NoArcs(arcs: Arcs)
    requires arcs == {}
    ensures !Cyclic(arcs)
  {
    forall u, v | u != v
      ensures !Mutual(arcs, u, v)
    {
      if Reach(arcs, u, v) {
        MutualHasArc(arcs, u, v);
      }
    }
  }
}
