/** internal/analysis/processes.go, traceForward: a depth-limited depth-first walk of the call
    graph, flattened into a preorder list that is meant to encode the call tree. */
module Processes {
  import opened Reachability

  datatype Step = Step(id: Id, depth: int)

  type Callees = map<Id, seq<Id>>

  function CalleesOf(callees: Callees, id: Id): seq<Id>
  {
    if id in callees then callees[id] else []
  }

  function Ids(steps: seq<Step>): set<Id>
  {
    set s | s in steps :: s.id
  }

  function Left(depth: int, maxDepth: int): nat
  {
    if depth <= maxDepth then maxDepth + 1 - depth else 0
  }

  // ---------------------------------------------------------------- the walk as a function

  /** The steps that dfs(id, depth) appends when `visited` have been visited. */
  function Walk1(callees: Callees, id: Id, depth: int, maxDepth: int, visited: set<Id>): seq<Step>
    decreases Left(depth, maxDepth), 0, 0
  {
    if id in visited || depth > maxDepth then []
    else [Step(id, depth)] + WalkAll(callees, CalleesOf(callees, id), depth + 1, maxDepth, visited + {id})
  }

  /** The steps that the calls for a list of callees append. */
  function WalkAll(callees: Callees, list: seq<Id>, depth: int, maxDepth: int, visited: set<Id>): seq<Step>
    decreases Left(depth, maxDepth), 1, |list|
  {
    if list == [] then []
    else
      var first := Walk1(callees, list[0], depth, maxDepth, visited);
      first + WalkAll(callees, list[1..], depth, maxDepth, visited + Ids(first))
  }

  lemma IdsAppend(a: seq<Step>, b: seq<Step>)
    ensures Ids(a + b) == Ids(a) + Ids(b)
  {
    forall x | x in Ids(a) + Ids(b)
      ensures x in Ids(a + b)
    {
      if x in Ids(a) {
        var s :| s in a && s.id == x;
        assert s in a + b;
      } else {
        var s :| s in b && s.id == x;
        assert s in a + b;
      }
    }
  }

  // ---------------------------------------------------------------- the walk as the program does it

  class Tracer {
    const callees: Callees
    const maxDepth: int
    var result: seq<Step>
    var visited: set<Id>

    constructor (callees: Callees, maxDepth: int)
      ensures this.callees == callees && this.maxDepth == maxDepth && result == [] && visited == {}
    {
      this.callees, this.maxDepth := callees, maxDepth;
      result, visited := [], {};
    }

    method Dfs(id: Id, depth: int)
      modifies this
      ensures result == old(result) + Walk1(callees, id, depth, maxDepth, old(visited))
      ensures visited == old(visited) + Ids(Walk1(callees, id, depth, maxDepth, old(visited)))
      decreases Left(depth, maxDepth), 0
    {
      hide WalkAll;
      if id in visited || depth > maxDepth {
        return;
      }
      ghost var before := visited;
      visited := visited + {id};
      result := result + [Step(id, depth)];
      ghost var rest := WalkAll(callees, CalleesOf(callees, id), depth + 1, maxDepth, visited);
      DfsAll(CalleesOf(callees, id), depth + 1);
      IdsAppend([Step(id, depth)], rest);
      assert Walk1(callees, id, depth, maxDepth, before) == [Step(id, depth)] + rest;
    }

    /** The loop over a function's callees. */
    method DfsAll(list: seq<Id>, depth: int)
      modifies this
      ensures result == old(result) + WalkAll(callees, list, depth, maxDepth, old(visited))
      ensures visited == old(visited) + Ids(WalkAll(callees, list, depth, maxDepth, old(visited)))
      decreases Left(depth, maxDepth), 1
    {
      hide Walk1, WalkAll, Ids;
      ghost var all := WalkAll(callees, list, depth, maxDepth, visited);
      ghost var done: seq<Step> := [];
      assert list[0..] == list;
      NoIds();
      for i := 0 to |list|
        invariant result == old(result) + done && visited == old(visited) + Ids(done)
        invariant all == done + WalkAll(callees, list[i..], depth, maxDepth, visited)
      {
        ghost var first := Walk1(callees, list[i], depth, maxDepth, visited);
        WalkAllNext(callees, list, i, depth, maxDepth, visited);
        AlreadyVisited(callees, list[i], depth, maxDepth, visited);
        IdsAppend(done, first);
        NoIds();
        ghost var seen := visited + Ids(first);
        ghost var rest := WalkAll(callees, list[i + 1..], depth, maxDepth, seen);
        if list[i] !in visited {
          Dfs(list[i], depth);
        }
        assert visited == seen;
        assert done + (first + rest) == (done + first) + rest;
        done := done + first;
      }
      WalkAllDone(callees, list, depth, maxDepth, visited);
      assert done + [] == done;
    }
  }

  lemma NoIds()
    ensures Ids([]) == {}
  {
  }

  lemma AlreadyVisited(callees: Callees, id: Id, depth: int, maxDepth: int, visited: set<Id>)
    ensures id in visited ==> Walk1(callees, id, depth, maxDepth, visited) == []
  {
  }

  lemma WalkAllNext(callees: Callees, list: seq<Id>, i: nat, depth: int, maxDepth: int, visited: set<Id>)
    requires i < |list|
    ensures var first := Walk1(callees, list[i], depth, maxDepth, visited);
      WalkAll(callees, list[i..], depth, maxDepth, visited) ==
        first + WalkAll(callees, list[i + 1..], depth, maxDepth, visited + Ids(first))
  {
    assert list[i..][1..] == list[i + 1..];
  }

  lemma WalkAllDone(callees: Callees, list: seq<Id>, depth: int, maxDepth: int, visited: set<Id>)
    ensures WalkAll(callees, list[|list|..], depth, maxDepth, visited) == []
  {
  }

  method TraceForward(startId: Id, callees: Callees, maxDepth: int) returns (steps: seq<Step>)
    ensures steps == Walk1(callees, startId, 0, maxDepth, {})
  {
    var tracer := new Tracer(callees, maxDepth);
    tracer.Dfs(startId, 0);
    steps := tracer.result;
  }
}
