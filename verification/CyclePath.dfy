/** internal/analysis/cycles.go, orderCyclePath: a concrete cycle inside a component. */
module CyclePath {
  import opened Reachability
  import opened Paths
  import opened Tarjan

  /** Nodes whose call has returned false: their successors are visited, and none leads back to start. */
  ghost predicate Exhausted(arcs: Arcs, start: Id, visited: set<Id>, open: set<Id>)
  {
    forall u, w :: u in visited && u !in open && (u, w) in arcs ==> w in visited && (u == start || w != start)
  }

  /** A finished, unsuccessful search proves that no other node is on a cycle with start. */
  lemma ExhaustedNoCycle(arcs: Arcs, start: Id, visited: set<Id>, u: Id)
    requires Exhausted(arcs, start, visited, {}) && start in visited
    ensures u != start ==> !Mutual(arcs, start, u)
  {
    if u != start && Reach(arcs, start, u) {
      ReachClosed(arcs, visited, start, u);
      if Reach(arcs, u, start) {
        ReachClosed(arcs, visited - {start}, u, start);
      }
    }
  }

  /** What a call keeps of the parent map: entries of nodes already visited. */
  ghost predicate ParentsKept(visited: set<Id>, before: map<Id, Id>, after: map<Id, Id>)
  {
    forall x :: x in visited && x in before ==> x in after && after[x] == before[x]
  }

  class Finder {
    const start: Id
    const sccSet: set<Id>
    const adj: map<Id, seq<Id>>
    var visited: set<Id>
    var parent: map<Id, Id>
    var cyclePath: seq<Id>

    constructor (start: Id, sccSet: set<Id>, adj: map<Id, seq<Id>>)
      ensures this.start == start && this.sccSet == sccSet && this.adj == adj
      ensures visited == {} && cyclePath == [] && parent == map[start := ""]
    {
      this.start, this.sccSet, this.adj := start, sccSet, adj;
      visited, parent, cyclePath := {}, map[start := ""], [];
    }

    method Dfs(node: Id, ghost chain: seq<Id>) returns (found: bool)
      requires IsChain(Within(sccSet, adj), parent, chain)
      requires chain[0] == start && chain[|chain| - 1] == node
      requires node in sccSet && node !in visited && Items(chain) <= visited + {node}
      requires visited <= sccSet
      requires Exhausted(Within(sccSet, adj), start, visited, Items(chain))
      requires cyclePath == []
      modifies this
      ensures found ==> IsCycle(Within(sccSet, adj), cyclePath) && cyclePath[0] == start
      ensures !found ==>
        && cyclePath == []
        && old(visited) + {node} <= visited <= sccSet
        && ParentsKept(old(visited) + {node}, old(parent), parent)
        && Exhausted(Within(sccSet, adj), start, visited, Items(chain) - {node})
      decreases sccSet - visited
    {
      ghost var arcs := Within(sccSet, adj);
      visited := visited + {node};
      var succs := if node in adj then adj[node] else [];
      for i := 0 to |succs|
        invariant old(visited) + {node} <= visited <= sccSet
        invariant cyclePath == []
        invariant ParentsKept(old(visited) + {node}, old(parent), parent)
        invariant Exhausted(arcs, start, visited, Items(chain))
        invariant forall j :: 0 <= j < i && succs[j] in sccSet ==>
          succs[j] in visited && (node == start || succs[j] != start)
      {
        var next := succs[i];
        if next in sccSet {
          assert (node, next) in arcs;
          KeepChain(arcs, old(parent), parent, chain);
          if next == start && node != start {
            cyclePath := Unwind(parent, start, node, arcs, chain);
            return true;
          }
          if next !in visited {
            ExtendChain(arcs, parent, chain, next);
            parent := parent[next := node];
            assert Items(chain + [next]) - {next} == Items(chain);
            found := Dfs(next, chain + [next]);
            if found {
              return true;
            }
          }
        }
      }
      return false;
    }
  }

  /** The start node shares a cycle with some other node of the component. */
  ghost predicate OnCycle(arcs: Arcs, start: Id)
  {
    exists u :: u != start && Mutual(arcs, start, u)
  }

  /** A simple cycle through scc[0] whenever one exists among the given nodes; the
      fallback (the nodes themselves) exactly when none does. */
  method OrderCyclePath(scc: seq<Id>, adj: map<Id, seq<Id>>) returns (path: seq<Id>)
    requires scc != []
    ensures if OnCycle(Within(Items(scc), adj), scc[0])
      then IsCycle(Within(Items(scc), adj), path) && path[0] == scc[0]
      else path == scc
  {
    var sccSet := Items(scc);
    var start := scc[0];
    ghost var arcs := Within(sccSet, adj);
    var finder := new Finder(start, sccSet, adj);
    assert Items([start]) == {start};
    var found := finder.Dfs(start, [start]);
    if found {
      CycleMutual(arcs, finder.cyclePath, 0, 1);
    } else {
      assert Items([start]) - {start} == {};
      forall u
        ensures u != start ==> !Mutual(arcs, start, u)
      {
        ExhaustedNoCycle(arcs, start, finder.visited, u);
      }
    }
    if |finder.cyclePath| >= 2 {
      return finder.cyclePath;
    }
    return scc;
  }

  /** A walk between two nodes of one component never leaves it. */
  lemma {:induction false} WalkInside(nodes: set<Id>, adj: map<Id, seq<Id>>, scc: seq<Id>, n: nat, u: Id, v: Id)
    requires Walk(Within(nodes, adj), n, u, v)
    requires u in scc && v in scc
    requires IsClass(Within(nodes, adj), scc)
    ensures Walk(Within(Items(scc), adj), n, u, v)
    decreases n
  {
    if n > 0 {
      var arcs := Within(nodes, adj);
      var w :| (u, w) in arcs && Walk(arcs, n - 1, w, v);
      assert Reach(arcs, w, v);
      assert Mutual(arcs, v, u);
      ReachTrans(arcs, w, v, u);
      ReachArc(arcs, u, w);
      assert Mutual(arcs, u, w);
      WalkInside(nodes, adj, scc, n - 1, w, v);
      assert (u, w) in Within(Items(scc), adj);
    }
  }

  lemma ReachInside(nodes: set<Id>, adj: map<Id, seq<Id>>, scc: seq<Id>, u: Id, v: Id)
    requires IsClass(Within(nodes, adj), scc) && u in scc && v in scc
    ensures Reach(Within(Items(scc), adj), u, v)
  {
    var arcs := Within(nodes, adj);
    assert Mutual(arcs, u, v);
    var n: nat :| Walk(arcs, n, u, v);
    WalkInside(nodes, adj, scc, n, u, v);
  }

  /** So a component of two or more nodes always yields a cycle: the fallback is never reached. */
  lemma ComponentOnCycle(nodes: set<Id>, adj: map<Id, seq<Id>>, scc: seq<Id>)
    requires |scc| >= 2 && NoRepeats(scc) && IsClass(Within(nodes, adj), scc)
    ensures OnCycle(Within(Items(scc), adj), scc[0])
  {
    ReachInside(nodes, adj, scc, scc[0], scc[1]);
    ReachInside(nodes, adj, scc, scc[1], scc[0]);
    assert Mutual(Within(Items(scc), adj), scc[0], scc[1]);
  }
}
