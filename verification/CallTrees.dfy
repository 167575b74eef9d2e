/** What the list produced by internal/analysis/processes.go's traceForward says: it is the
    preorder of exactly one call tree, and how far it is complete. */
module CallTrees {
  import opened Reachability
  import opened Processes

  // ---------------------------------------------------------------- distinct steps

  ghost predicate DistinctIds(steps: seq<Step>)
  {
    forall i, j :: 0 <= i < j < |steps| ==> steps[i].id != steps[j].id
  }

  lemma DistinctAppend(a: seq<Step>, b: seq<Step>)
    requires DistinctIds(a) && DistinctIds(b) && Ids(a) !! Ids(b)
    ensures DistinctIds(a + b)
  {
    forall i, j | 0 <= i < |a| && 0 <= j < |b|
      ensures a[i].id != b[j].id
    {
      assert a[i].id in Ids(a) && b[j].id in Ids(b);
    }
  }

  /** No symbol is listed twice, and none that had been visited before. */
  lemma {:induction false} Walk1Distinct(callees: Callees, id: Id, depth: int, maxDepth: int, visited: set<Id>)
    ensures DistinctIds(Walk1(callees, id, depth, maxDepth, visited))
    ensures Ids(Walk1(callees, id, depth, maxDepth, visited)) !! visited
    decreases Left(depth, maxDepth), 0, 0
  {
    if id !in visited && depth <= maxDepth {
      var rest := WalkAll(callees, CalleesOf(callees, id), depth + 1, maxDepth, visited + {id});
      WalkAllDistinct(callees, CalleesOf(callees, id), depth + 1, maxDepth, visited + {id});
      hide WalkAll;
      DistinctAppend([Step(id, depth)], rest);
      IdsAppend([Step(id, depth)], rest);
    }
  }

  lemma {:induction false} WalkAllDistinct(callees: Callees, list: seq<Id>, depth: int, maxDepth: int, visited: set<Id>)
    ensures DistinctIds(WalkAll(callees, list, depth, maxDepth, visited))
    ensures Ids(WalkAll(callees, list, depth, maxDepth, visited)) !! visited
    decreases Left(depth, maxDepth), 1, |list|
  {
    if list != [] {
      var first := Walk1(callees, list[0], depth, maxDepth, visited);
      var rest := WalkAll(callees, list[1..], depth, maxDepth, visited + Ids(first));
      Walk1Distinct(callees, list[0], depth, maxDepth, visited);
      WalkAllDistinct(callees, list[1..], depth, maxDepth, visited + Ids(first));
      hide Walk1;
      DistinctAppend(first, rest);
      IdsAppend(first, rest);
    }
  }

  // ---------------------------------------------------------------- call trees

  datatype Tree = Tree(id: Id, kids: seq<Tree>)

  /** Preorder, with depths. */
  function Flatten(t: Tree, depth: int): seq<Step>
    decreases t, 0
  {
    [Step(t.id, depth)] + FlattenAll(t.kids, depth + 1)
  }

  function FlattenAll(ts: seq<Tree>, depth: int): seq<Step>
    decreases ts, 1
  {
    if ts == [] then [] else Flatten(ts[0], depth) + FlattenAll(ts[1..], depth)
  }

  function Roots(ts: seq<Tree>): seq<Id>
  {
    seq(|ts|, k requires 0 <= k < |ts| => ts[k].id)
  }

  /** pos picks these ids from the list, from left to right. */
  ghost predicate PickedAt(ids: seq<Id>, list: seq<Id>, pos: seq<nat>)
  {
    && |pos| == |ids|
    && (forall k :: 0 <= k < |ids| ==> pos[k] < |list| && ids[k] == list[pos[k]])
    && (forall k, l :: 0 <= k < l < |ids| ==> pos[k] < pos[l])
  }

  ghost predicate InListOrder(ids: seq<Id>, list: seq<Id>)
  {
    exists pos :: PickedAt(ids, list, pos)
  }

  /** The children are callees of their parent, in the order in which it lists them, and so throughout. */
  ghost predicate IsCallTree(callees: Callees, t: Tree)
    decreases t
  {
    && (t.kids == [] || (t.id in callees && InListOrder(Roots(t.kids), callees[t.id])))
    && forall k :: 0 <= k < |t.kids| ==> IsCallTree(callees, t.kids[k])
  }

  lemma KidIsCallee(callees: Callees, t: Tree, k: nat)
    requires IsCallTree(callees, t) && k < |t.kids|
    ensures t.kids[k].id in CalleesOf(callees, t.id)
  {
    var pos :| PickedAt(Roots(t.kids), callees[t.id], pos);
    assert Roots(t.kids)[k] == callees[t.id][pos[k]];
  }

  lemma OrderSkip(ids: seq<Id>, list: seq<Id>)
    requires list != [] && InListOrder(ids, list[1..])
    ensures InListOrder(ids, list)
  {
    var pos :| PickedAt(ids, list[1..], pos);
    assert PickedAt(ids, list, seq(|pos|, k requires 0 <= k < |pos| => pos[k] + 1));
  }

  lemma OrderTake(ids: seq<Id>, list: seq<Id>)
    requires list != [] && InListOrder(ids, list[1..])
    ensures InListOrder([list[0]] + ids, list)
  {
    var pos :| PickedAt(ids, list[1..], pos);
    assert PickedAt([list[0]] + ids, list, [0] + seq(|pos|, k requires 0 <= k < |pos| => pos[k] + 1));
  }

  lemma OrderNone(list: seq<Id>)
    ensures InListOrder(Roots([]), list)
  {
    assert Roots([]) == [] && PickedAt(Roots([]), list, []);
  }

  /** The steps of one call are the preorder of a call tree rooted at its symbol. */
  lemma {:induction false} Walk1IsTree(callees: Callees, id: Id, depth: int, maxDepth: int, visited: set<Id>) returns (t: Tree)
    requires id !in visited && depth <= maxDepth
    ensures t.id == id && IsCallTree(callees, t) && Flatten(t, depth) == Walk1(callees, id, depth, maxDepth, visited)
    decreases Left(depth, maxDepth), 0, 0
  {
    var kids := WalkAllIsForest(callees, CalleesOf(callees, id), depth + 1, maxDepth, visited + {id});
    hide WalkAll;
    if id !in callees {
      NothingPicked(kids);
    }
    t := Tree(id, kids);
  }

  lemma PickedLength(ids: seq<Id>, list: seq<Id>)
    requires InListOrder(ids, list)
    ensures |ids| > 0 ==> |list| > 0
  {
    var pos :| PickedAt(ids, list, pos);
    if |ids| > 0 {
      assert ids[0] == list[pos[0]];
    }
  }

  lemma NothingPicked(ts: seq<Tree>)
    requires InListOrder(Roots(ts), [])
    ensures ts == []
  {
    PickedLength(Roots(ts), []);
  }

  lemma {:induction false} WalkAllIsForest(callees: Callees, list: seq<Id>, depth: int, maxDepth: int, visited: set<Id>) returns (ts: seq<Tree>)
    ensures InListOrder(Roots(ts), list) && forall k :: 0 <= k < |ts| ==> IsCallTree(callees, ts[k])
    ensures FlattenAll(ts, depth) == WalkAll(callees, list, depth, maxDepth, visited)
    decreases Left(depth, maxDepth), 1, |list|
  {
    if list == [] {
      ts := [];
      OrderNone(list);
    } else {
      var first := Walk1(callees, list[0], depth, maxDepth, visited);
      var rest := WalkAllIsForest(callees, list[1..], depth, maxDepth, visited + Ids(first));
      hide InListOrder, IsCallTree;
      if list[0] in visited || depth > maxDepth {
        ts := rest;
        OrderSkip(Roots(ts), list);
      } else {
        var t := Walk1IsTree(callees, list[0], depth, maxDepth, visited);
        hide Walk1;
        ts := [t] + rest;
        assert ts[1..] == rest;
        OrderTake(Roots(rest), list);
        assert Roots(ts) == [list[0]] + Roots(rest);
      }
    }
  }

  // ---------------------------------------------------------------- only one tree fits

  /** Only the root of a tree stands at its depth; everything after it is deeper. */
  lemma {:induction false} DeeperInside(t: Tree, depth: int)
    ensures forall i :: 0 < i < |Flatten(t, depth)| ==> Flatten(t, depth)[i].depth > depth
    decreases t, 0
  {
    DeeperForest(t.kids, depth + 1);
  }

  lemma {:induction false} DeeperForest(ts: seq<Tree>, depth: int)
    ensures forall i :: 0 <= i < |FlattenAll(ts, depth)| ==> FlattenAll(ts, depth)[i].depth >= depth
    decreases ts, 1
  {
    if ts != [] {
      DeeperInside(ts[0], depth);
      DeeperForest(ts[1..], depth);
    }
  }

  lemma RootAfterTree(us: seq<Tree>, depth: int)
    requires us != [] && |Flatten(us[0], depth)| < |FlattenAll(us, depth)|
    ensures FlattenAll(us, depth)[|Flatten(us[0], depth)|].depth == depth
  {
    var first, rest := Flatten(us[0], depth), FlattenAll(us[1..], depth);
    assert FlattenAll(us, depth) == first + rest;
    assert (first + rest)[|first|] == rest[0];
    var next := Flatten(us[1..][0], depth);
    assert rest == next + FlattenAll(us[1..][1..], depth);
    assert next[0] == Step(us[1..][0].id, depth);
  }

  lemma DeeperAfterRoot(ts: seq<Tree>, depth: int)
    requires ts != []
    ensures |Flatten(ts[0], depth)| <= |FlattenAll(ts, depth)| && |Flatten(ts[0], depth)| > 0
    ensures forall i :: 0 < i < |Flatten(ts[0], depth)| ==> FlattenAll(ts, depth)[i].depth > depth
  {
    DeeperInside(ts[0], depth);
    assert FlattenAll(ts, depth) == Flatten(ts[0], depth) + FlattenAll(ts[1..], depth);
  }

  /** Where the first tree of a forest ends can be read off the list. */
  lemma SameCut(ts: seq<Tree>, us: seq<Tree>, depth: int)
    requires ts != [] && us != [] && FlattenAll(ts, depth) == FlattenAll(us, depth)
    ensures |Flatten(ts[0], depth)| <= |Flatten(us[0], depth)|
  {
    DeeperAfterRoot(ts, depth);
    DeeperAfterRoot(us, depth);
    if |Flatten(us[0], depth)| < |FlattenAll(us, depth)| {
      RootAfterTree(us, depth);
    }
    hide Flatten, FlattenAll;
  }

  /** Equal lists come from equal forests. */
  lemma {:induction false} FlattenAllInjective(ts: seq<Tree>, us: seq<Tree>, depth: int)
    requires FlattenAll(ts, depth) == FlattenAll(us, depth)
    ensures ts == us
    decreases ts, 1
  {
    if ts == [] || us == [] {
      assert ts == [] && us == [];
    } else {
      SameCut(ts, us, depth);
      SameCut(us, ts, depth);
      var n, all := |Flatten(ts[0], depth)|, FlattenAll(ts, depth);
      assert all[..n] == Flatten(ts[0], depth) && all[..n] == Flatten(us[0], depth);
      assert all[n..] == FlattenAll(ts[1..], depth) && all[n..] == FlattenAll(us[1..], depth);
      FlattenInjective(ts[0], us[0], depth);
      FlattenAllInjective(ts[1..], us[1..], depth);
      assert ts == [ts[0]] + ts[1..] && us == [us[0]] + us[1..];
    }
  }

  lemma {:induction false} FlattenInjective(t: Tree, u: Tree, depth: int)
    requires Flatten(t, depth) == Flatten(u, depth)
    ensures t == u
    decreases t, 0
  {
    assert Flatten(t, depth)[0] == Step(t.id, depth) && Flatten(u, depth)[0] == Step(u.id, depth);
    assert Flatten(t, depth)[1..] == FlattenAll(t.kids, depth + 1);
    assert Flatten(u, depth)[1..] == FlattenAll(u.kids, depth + 1);
    FlattenAllInjective(t.kids, u.kids, depth + 1);
  }

  // ---------------------------------------------------------------- reading off parents

  /** j is the nearest step before i that is shallower than i, it is one level up, and it calls i. */
  ghost predicate ParentOf(callees: Callees, steps: seq<Step>, j: int, i: int)
  {
    && 0 <= j < i < |steps|
    && steps[j].depth == steps[i].depth - 1
    && (forall m :: j < m < i ==> steps[m].depth >= steps[i].depth)
    && steps[i].id in CalleesOf(callees, steps[j].id)
  }

  ghost predicate HasParent(callees: Callees, steps: seq<Step>, i: int)
  {
    exists j :: ParentOf(callees, steps, j, i)
  }

  lemma ParentLater(callees: Callees, a: seq<Step>, b: seq<Step>, i: int)
    requires HasParent(callees, b, i)
    ensures HasParent(callees, a + b, |a| + i)
  {
    var j :| ParentOf(callees, b, j, i);
    var all := a + b;
    forall m | |a| + j < m < |a| + i
      ensures all[m].depth >= all[|a| + i].depth
    {
      assert all[m] == b[m - |a|];
    }
    assert ParentOf(callees, all, |a| + j, |a| + i);
  }

  lemma ParentEarlier(callees: Callees, a: seq<Step>, b: seq<Step>, i: int)
    requires HasParent(callees, a, i)
    ensures HasParent(callees, a + b, i)
  {
    var j :| ParentOf(callees, a, j, i);
    assert ParentOf(callees, a + b, j, i);
  }

  /** In a forest, a step at the top level is a root; any other has its parent in the forest. */
  lemma {:induction false} ForestParents(callees: Callees, ts: seq<Tree>, depth: int, i: int)
    requires (forall k :: 0 <= k < |ts| ==> IsCallTree(callees, ts[k])) && 0 <= i < |FlattenAll(ts, depth)|
    ensures var s := FlattenAll(ts, depth);
      if s[i].depth == depth then exists k :: 0 <= k < |ts| && s[i].id == ts[k].id else HasParent(callees, s, i)
    decreases ts, 1
  {
    var first, rest := Flatten(ts[0], depth), FlattenAll(ts[1..], depth);
    if i < |first| {
      DeeperInside(ts[0], depth);
      if i > 0 {
        TreeParents(callees, ts[0], depth, i);
        ParentEarlier(callees, first, rest, i);
      }
    } else {
      ForestParents(callees, ts[1..], depth, i - |first|);
      if rest[i - |first|].depth == depth {
        var k :| 0 <= k < |ts[1..]| && rest[i - |first|].id == ts[1..][k].id;
        assert ts[k + 1] == ts[1..][k];
      } else {
        ParentLater(callees, first, rest, i - |first|);
      }
    }
  }

  /** In the preorder of a call tree every step but the first has its caller as nearest shallower step. */
  lemma {:induction false} TreeParents(callees: Callees, t: Tree, depth: int, i: int)
    requires IsCallTree(callees, t) && 0 < i < |Flatten(t, depth)|
    ensures HasParent(callees, Flatten(t, depth), i)
    decreases t, 0
  {
    var rest := FlattenAll(t.kids, depth + 1);
    var all := [Step(t.id, depth)] + rest;
    ForestParents(callees, t.kids, depth + 1, i - 1);
    DeeperForest(t.kids, depth + 1);
    hide FlattenAll;
    if rest[i - 1].depth == depth + 1 {
      var k :| 0 <= k < |t.kids| && rest[i - 1].id == t.kids[k].id;
      KidIsCallee(callees, t, k);
      assert ParentOf(callees, all, 0, i);
    } else {
      ParentLater(callees, [Step(t.id, depth)], rest, i - 1);
    }
  }

  /** The list that traceForward produces: distinct steps, the preorder of a call tree rooted at
      the start and of no other tree, each step's nearest shallower predecessor being its caller. */
  lemma TraceIsCallTree(callees: Callees, start: Id, maxDepth: int) returns (t: Tree)
    requires maxDepth >= 0
    ensures var steps := Walk1(callees, start, 0, maxDepth, {});
      && DistinctIds(steps)
      && t.id == start && IsCallTree(callees, t) && steps == Flatten(t, 0)
      && (forall u :: Flatten(u, 0) == steps ==> u == t)
      && (forall i :: 0 < i < |steps| ==> HasParent(callees, steps, i))
  {
    t := Walk1IsTree(callees, start, 0, maxDepth, {});
    Walk1Distinct(callees, start, 0, maxDepth, {});
    hide Walk1, DistinctIds, HasParent;
    var steps := Walk1(callees, start, 0, maxDepth, {});
    forall u | Flatten(u, 0) == steps
      ensures u == t
    {
      FlattenInjective(u, t, 0);
    }
    forall i | 0 < i < |steps|
      ensures HasParent(callees, steps, i)
    {
      TreeParents(callees, t, 0, i);
    }
  }

  // ---------------------------------------------------------------- how far the list is complete

  /** Every callee of a step above the depth limit has been visited. */
  ghost predicate ClosedAbove(callees: Callees, steps: seq<Step>, maxDepth: int, known: set<Id>)
  {
    forall s, w :: s in steps && s.depth < maxDepth && w in CalleesOf(callees, s.id) ==> w in known
  }

  lemma {:induction false} Walk1Closed(callees: Callees, id: Id, depth: int, maxDepth: int, visited: set<Id>)
    ensures var steps := Walk1(callees, id, depth, maxDepth, visited);
      && ClosedAbove(callees, steps, maxDepth, visited + Ids(steps))
      && (depth <= maxDepth ==> id in visited + Ids(steps))
    decreases Left(depth, maxDepth), 0, 0
  {
    if id !in visited && depth <= maxDepth {
      var me, rest := [Step(id, depth)], WalkAll(callees, CalleesOf(callees, id), depth + 1, maxDepth, visited + {id});
      WalkAllClosed(callees, CalleesOf(callees, id), depth + 1, maxDepth, visited + {id});
      hide WalkAll;
      IdsAppend(me, rest);
      assert me[0] in me;
      assert visited + {id} + Ids(rest) == visited + Ids(me + rest);
    }
  }

  lemma ClosedAppend(callees: Callees, a: seq<Step>, b: seq<Step>, maxDepth: int, known: set<Id>, more: set<Id>)
    requires ClosedAbove(callees, a, maxDepth, known) && ClosedAbove(callees, b, maxDepth, more) && known <= more
    ensures ClosedAbove(callees, a + b, maxDepth, more)
  {
  }

  lemma {:induction false} WalkAllClosed(callees: Callees, list: seq<Id>, depth: int, maxDepth: int, visited: set<Id>)
    ensures var steps := WalkAll(callees, list, depth, maxDepth, visited);
      && ClosedAbove(callees, steps, maxDepth, visited + Ids(steps))
      && (depth <= maxDepth ==> forall w :: w in list ==> w in visited + Ids(steps))
    decreases Left(depth, maxDepth), 1, |list|
  {
    if list != [] {
      var first := Walk1(callees, list[0], depth, maxDepth, visited);
      var rest := WalkAll(callees, list[1..], depth, maxDepth, visited + Ids(first));
      Walk1Closed(callees, list[0], depth, maxDepth, visited);
      WalkAllClosed(callees, list[1..], depth, maxDepth, visited + Ids(first));
      hide Walk1, ClosedAbove, Ids;
      IdsAppend(first, rest);
      var known := visited + Ids(first);
      assert visited + Ids(first + rest) == known + Ids(rest);
      ClosedAppend(callees, first, rest, maxDepth, known, known + Ids(rest));
      assert forall w :: w in list ==> w == list[0] || w in list[1..];
    }
  }

  ghost function CallArcs(callees: Callees): Arcs
  {
    set u, w | u in callees && w in callees[u] :: (u, w)
  }

  /** Every step can be reached from the start by calls. */
  lemma {:induction false} Walk1Reachable(callees: Callees, id: Id, depth: int, maxDepth: int, visited: set<Id>, x: Id)
    requires x in Ids(Walk1(callees, id, depth, maxDepth, visited))
    ensures Reach(CallArcs(callees), id, x)
    decreases Left(depth, maxDepth), 0, 0
  {
    var arcs := CallArcs(callees);
    if x == id {
      ReachRefl(arcs, id);
    } else {
      var rest := WalkAll(callees, CalleesOf(callees, id), depth + 1, maxDepth, visited + {id});
      IdsAppend([Step(id, depth)], rest);
      var w := WalkAllReachable(callees, CalleesOf(callees, id), depth + 1, maxDepth, visited + {id}, x);
      assert (id, w) in arcs;
      ReachCons(arcs, id, w, x);
    }
  }

  lemma {:induction false} WalkAllReachable(callees: Callees, list: seq<Id>, depth: int, maxDepth: int, visited: set<Id>, x: Id) returns (w: Id)
    requires x in Ids(WalkAll(callees, list, depth, maxDepth, visited))
    ensures w in list && Reach(CallArcs(callees), w, x)
    decreases Left(depth, maxDepth), 1, |list|
  {
    var first := Walk1(callees, list[0], depth, maxDepth, visited);
    var rest := WalkAll(callees, list[1..], depth, maxDepth, visited + Ids(first));
    IdsAppend(first, rest);
    if x in Ids(first) {
      w := list[0];
      Walk1Reachable(callees, list[0], depth, maxDepth, visited, x);
    } else {
      w := WalkAllReachable(callees, list[1..], depth, maxDepth, visited + Ids(first), x);
    }
  }

  /** No step is deeper than the limit. */
  lemma {:induction false} Walk1Depths(callees: Callees, id: Id, depth: int, maxDepth: int, visited: set<Id>)
    ensures forall s :: s in Walk1(callees, id, depth, maxDepth, visited) ==> s.depth <= maxDepth
    decreases Left(depth, maxDepth), 0, 0
  {
    if id !in visited && depth <= maxDepth {
      WalkAllDepths(callees, CalleesOf(callees, id), depth + 1, maxDepth, visited + {id});
      hide WalkAll;
    }
  }

  lemma {:induction false} WalkAllDepths(callees: Callees, list: seq<Id>, depth: int, maxDepth: int, visited: set<Id>)
    ensures forall s :: s in WalkAll(callees, list, depth, maxDepth, visited) ==> s.depth <= maxDepth
    decreases Left(depth, maxDepth), 1, |list|
  {
    if list != [] {
      var first := Walk1(callees, list[0], depth, maxDepth, visited);
      Walk1Depths(callees, list[0], depth, maxDepth, visited);
      WalkAllDepths(callees, list[1..], depth, maxDepth, visited + Ids(first));
      hide Walk1;
    }
  }

  /** The trace of a function, as a list. */
  function Steps(callees: Callees, start: Id, maxDepth: int): seq<Step>
  {
    Walk1(callees, start, 0, maxDepth, {})
  }

  /** A callee of a listed symbol is listed, or the symbol stands at the limit. */
  lemma StepsClosed(callees: Callees, start: Id, maxDepth: int, u: Id, w: Id)
    requires maxDepth >= 0 && u in Ids(Steps(callees, start, maxDepth)) && (u, w) in CallArcs(callees)
    ensures w in Ids(Steps(callees, start, maxDepth)) || Step(u, maxDepth) in Steps(callees, start, maxDepth)
  {
    hide Walk1;
    var steps := Steps(callees, start, maxDepth);
    Walk1Closed(callees, start, 0, maxDepth, {});
    Walk1Depths(callees, start, 0, maxDepth, {});
    var s :| s in steps && s.id == u;
    assert {} + Ids(steps) == Ids(steps);
    assert s.depth < maxDepth ==> w in Ids(steps);
    assert s == Step(u, s.depth);
  }

  lemma StartListed(callees: Callees, start: Id, maxDepth: int)
    requires maxDepth >= 0
    ensures start in Ids(Steps(callees, start, maxDepth))
  {
    hide WalkAll;
    var steps := Steps(callees, start, maxDepth);
    assert steps[0] == Step(start, 0) && steps[0] in steps;
  }

  /** Every callee of a symbol at the limit is listed. */
  ghost predicate LimitClosed(callees: Callees, steps: seq<Step>, maxDepth: int)
  {
    forall u, w :: Step(u, maxDepth) in steps && (u, w) in CallArcs(callees) ==> w in Ids(steps)
  }

  ghost predicate ListsReachable(callees: Callees, start: Id, steps: seq<Step>)
  {
    forall x :: x in Ids(steps) <==> Reach(CallArcs(callees), start, x)
  }

  /** Exactly when the steps are the symbols reachable by calls: the limit cuts off nothing that
      is not listed elsewhere. */
  lemma TraceCompleteIff(callees: Callees, start: Id, maxDepth: int)
    requires maxDepth >= 0
    ensures ListsReachable(callees, start, Steps(callees, start, maxDepth)) <==>
      LimitClosed(callees, Steps(callees, start, maxDepth), maxDepth)
  {
    hide Walk1, CallArcs, Ids;
    var steps, arcs := Steps(callees, start, maxDepth), CallArcs(callees);
    if LimitClosed(callees, steps, maxDepth) {
      StartListed(callees, start, maxDepth);
      forall u, w | u in Ids(steps) && (u, w) in arcs
        ensures w in Ids(steps)
      {
        StepsClosed(callees, start, maxDepth, u, w);
      }
      forall x
        ensures x in Ids(steps) <==> Reach(arcs, start, x)
      {
        if x in Ids(steps) {
          Walk1Reachable(callees, start, 0, maxDepth, {}, x);
        }
        if Reach(arcs, start, x) {
          ReachClosed(arcs, Ids(steps), start, x);
        }
      }
    }
    if ListsReachable(callees, start, steps) {
      forall u, w | Step(u, maxDepth) in steps && (u, w) in arcs
        ensures w in Ids(steps)
      {
        ListedStep(steps, Step(u, maxDepth));
        ReachArc(arcs, u, w);
        ReachTrans(arcs, start, u, w);
      }
    }
  }

  lemma ListedStep(steps: seq<Step>, s: Step)
    requires s in steps
    ensures s.id in Ids(steps)
  {
  }

  /** In particular when no step stands at the depth limit. */
  lemma TraceComplete(callees: Callees, start: Id, maxDepth: int)
    requires maxDepth >= 0
    requires forall s :: s in Steps(callees, start, maxDepth) ==> s.depth < maxDepth
    ensures ListsReachable(callees, start, Steps(callees, start, maxDepth))
  {
    hide Steps;
    TraceCompleteIff(callees, start, maxDepth);
  }

  /** Every symbol within the limit, by whatever calls, is listed. */
  ghost predicate ListsNear(callees: Callees, start: Id, steps: seq<Step>, maxDepth: int)
  {
    forall x, n: nat :: n <= maxDepth && Walk(CallArcs(callees), n, start, x) ==> x in Ids(steps)
  }

  /** The symbols that were listed at the limit although fewer calls lead to them cut off nothing. */
  ghost predicate DetoursClosed(callees: Callees, start: Id, steps: seq<Step>, maxDepth: int)
  {
    forall u, w, n: nat ::
      Step(u, maxDepth) in steps && n < maxDepth && Walk(CallArcs(callees), n, start, u) && (u, w) in CallArcs(callees) ==> w in Ids(steps)
  }

  lemma {:induction false} NearListed(callees: Callees, start: Id, maxDepth: int, n: nat, x: Id)
    requires n <= maxDepth && DetoursClosed(callees, start, Steps(callees, start, maxDepth), maxDepth)
    requires Walk(CallArcs(callees), n, start, x)
    ensures x in Ids(Steps(callees, start, maxDepth))
    decreases n
  {
    hide Walk1, CallArcs, Ids;
    if n == 0 {
      StartListed(callees, start, maxDepth);
    } else {
      var u := WalkLast(CallArcs(callees), n - 1, start, x);
      NearListed(callees, start, maxDepth, n - 1, u);
      StepsClosed(callees, start, maxDepth, u, x);
    }
  }

  /** Exactly when a trace misses no symbol within the limit: it does only through a symbol that
      depth-first search met at the limit although a shorter chain of calls leads there. */
  lemma NearCompleteIff(callees: Callees, start: Id, maxDepth: int)
    requires maxDepth >= 0
    ensures ListsNear(callees, start, Steps(callees, start, maxDepth), maxDepth) <==>
      DetoursClosed(callees, start, Steps(callees, start, maxDepth), maxDepth)
  {
    hide Walk1, CallArcs, Ids, Steps;
    var steps, arcs := Steps(callees, start, maxDepth), CallArcs(callees);
    if DetoursClosed(callees, start, steps, maxDepth) {
      forall x, n: nat | n <= maxDepth && Walk(arcs, n, start, x)
        ensures x in Ids(steps)
      {
        NearListed(callees, start, maxDepth, n, x);
      }
    }
    if ListsNear(callees, start, steps, maxDepth) {
      forall u, w, n: nat | Step(u, maxDepth) in steps && n < maxDepth && Walk(arcs, n, start, u) && (u, w) in arcs
        ensures w in Ids(steps)
      {
        assert Walk(arcs, 0, w, w);
        assert Walk(arcs, 1, u, w);
        WalkTrans(arcs, n, start, u, 1, w);
      }
    }
  }

  // ---------------------------------------------------------------- the limit does hide symbols

  /** Distinct names: a, aa, aaa, ... */
  function Name(k: nat): Id
  {
    seq(k, _ => 'a')
  }

  lemma NameIsOwn(k: nat)
    ensures Name(k) != "s" && Name(k) != "c" && forall j: nat :: Name(j) == Name(k) ==> j == k
  {
    assert |Name(k)| == k;
    assert k == 1 ==> Name(k)[0] == 'a';
    forall j: nat | Name(j) == Name(k)
      ensures j == k
    {
      assert |Name(j)| == j;
    }
  }

  /** A chain of m functions, each calling the next. */
  function Links(m: nat): Callees
  {
    if m <= 1 then map[] else Links(m - 1)[Name(m - 1) := [Name(m)]]
  }

  lemma {:induction false} LinksAt(m: nat, k: nat)
    ensures CalleesOf(Links(m), Name(k)) == if 1 <= k < m then [Name(k + 1)] else []
    ensures CalleesOf(Links(m), "c") == []
    decreases m
  {
    hide Name;
    if m > 1 {
      LinksAt(m - 1, k);
      NameIsOwn(m - 1);
    }
  }

  /** s calls the first and the last link of a chain of m functions; the last one calls c. */
  function Detour(m: nat): Callees
  {
    Links(m)[Name(m) := ["c"]]["s" := [Name(1), Name(m)]]
  }

  lemma DetourCallees(m: nat, k: nat)
    requires 1 <= k <= m
    ensures CalleesOf(Detour(m), Name(k)) == if k == m then ["c"] else [Name(k + 1)]
    ensures CalleesOf(Detour(m), "s") == [Name(1), Name(m)]
  {
    hide Name, Links;
    LinksAt(m, k);
    NameIsOwn(k);
  }

  lemma WalkStart(callees: Callees, id: Id, depth: int, maxDepth: int, visited: set<Id>)
    ensures Walk1(callees, id, depth, maxDepth, visited) ==
      if id in visited || depth > maxDepth then []
      else [Step(id, depth)] + WalkAll(callees, CalleesOf(callees, id), depth + 1, maxDepth, visited + {id})
  {
  }

  lemma WalkOne(callees: Callees, id: Id, depth: int, maxDepth: int, visited: set<Id>)
    ensures WalkAll(callees, [id], depth, maxDepth, visited) == Walk1(callees, id, depth, maxDepth, visited)
  {
    assert [id][1..] == [];
  }

  lemma WalkTwo(callees: Callees, a: Id, b: Id, depth: int, maxDepth: int, visited: set<Id>)
    ensures var first := Walk1(callees, a, depth, maxDepth, visited);
      WalkAll(callees, [a, b], depth, maxDepth, visited) == first + Walk1(callees, b, depth, maxDepth, visited + Ids(first))
  {
    assert [a, b][1..] == [b];
    WalkOne(callees, b, depth, maxDepth, visited + Ids(Walk1(callees, a, depth, maxDepth, visited)));
  }

  lemma OneStep(id: Id, depth: int)
    ensures Ids([Step(id, depth)]) == {id} && Ids([]) == {}
  {
    NoIds();
    assert Step(id, depth) in [Step(id, depth)];
  }

  /** Following the chain lists its links down to the limit, and not c below it. */
  lemma {:induction false} DetourWalk(m: nat, k: nat, visited: set<Id>)
    requires 1 <= k <= m
    requires forall j: nat :: k <= j <= m ==> Name(j) !in visited
    ensures var steps := Walk1(Detour(m), Name(k), k, m, visited); Name(m) in Ids(steps) && "c" !in Ids(steps)
    decreases m - k
  {
    hide Detour, Name, Walk1, WalkAll, Ids;
    var callees, inside := Detour(m), visited + {Name(k)};
    DetourCallees(m, k);
    NameIsOwn(k);
    var next := if k == m then "c" else Name(k + 1);
    var rest := Walk1(callees, next, k + 1, m, inside);
    WalkStart(callees, Name(k), k, m, visited);
    WalkOne(callees, next, k + 1, m, inside);
    if k == m {
      WalkStart(callees, "c", k + 1, m, inside);
    } else {
      DetourWalk(m, k + 1, inside);
    }
    IdsAppend([Step(Name(k), k)], rest);
    OneStep(Name(k), k);
  }

  /** With any limit of two or more a symbol two calls away can be missing: c is called by a function
      that s calls, but the search first met that function at the limit, along the chain. */
  lemma LimitHidesNearSymbol(m: nat)
    requires m >= 2
    ensures "c" !in Ids(Steps(Detour(m), "s", m)) && Walk(CallArcs(Detour(m)), 2, "s", "c")
    ensures !ListsNear(Detour(m), "s", Steps(Detour(m), "s", m), m)
  {
    DetourSteps(m);
    DetourCallees(m, m);
    hide Detour, Name, Steps, Ids;
    var callees, arcs := Detour(m), CallArcs(Detour(m));
    assert Name(m) in CalleesOf(callees, "s") && "c" in CalleesOf(callees, Name(m));
    assert ("s", Name(m)) in arcs && (Name(m), "c") in arcs;
    assert Walk(arcs, 0, "c", "c");
    assert Walk(arcs, 1, Name(m), "c");
  }

  lemma DetourSteps(m: nat)
    requires m >= 2
    ensures "c" !in Ids(Steps(Detour(m), "s", m))
  {
    hide Detour, Name, Walk1, WalkAll, Ids;
    var callees, start := Detour(m), {} + {"s"};
    forall j: nat
      ensures Name(j) !in start
    {
      NameIsOwn(j);
    }
    DetourWalk(m, 1, start);
    DetourCallees(m, 1);
    var first := Walk1(callees, Name(1), 1, m, start);
    WalkStart(callees, "s", 0, m, {});
    WalkTwo(callees, Name(1), Name(m), 1, m, start);
    WalkStart(callees, Name(m), 1, m, start + Ids(first));
    assert first + [] == first;
    IdsAppend([Step("s", 0)], first);
    OneStep("s", 0);
  }
}
