/** internal/analysis/processes.go, the second half of DiscoverProcesses: traces each entry point
    and records, for every symbol, the processes it takes part in. */
module ProcessIndex {
  import opened Reachability
  import opened Processes
  import opened CallTrees

  const MAX_PROCESSES := 50
  const MAX_DEPTH := 15

  /** Processes are named by their position in the list. */
  datatype Process = Process(entryPoint: Id, steps: seq<Step>)

  type NodeToProcs = map<Id, seq<nat>>

  function ProcsOf(index: NodeToProcs, id: Id): seq<nat>
  {
    if id in index then index[id] else []
  }

  ghost predicate Increasing(s: seq<nat>)
  {
    forall i, j :: 0 <= i < j < |s| ==> s[i] < s[j]
  }

  ghost predicate TakesPart(procs: seq<Process>, id: Id, p: nat)
  {
    p < |procs| && id in Ids(procs[p].steps)
  }

  /** The list holds, once and in order, exactly the processes with a step at id. */
  ghost predicate ListExact(procs: seq<Process>, id: Id, list: seq<nat>)
  {
    Increasing(list) && forall p: nat {:trigger TakesPart(procs, id, p)} :: p in list <==> TakesPart(procs, id, p)
  }

  ghost predicate IndexExact(procs: seq<Process>, index: NodeToProcs)
  {
    forall id {:trigger ProcsOf(index, id)} :: ListExact(procs, id, ProcsOf(index, id))
  }

  lemma ListGrows(procs: seq<Process>, entry: Id, done: seq<Step>, s: Step, list: seq<nat>)
    requires ListExact(procs + [Process(entry, done)], s.id, list) && s.id !in Ids(done)
    ensures ListExact(procs + [Process(entry, done + [s])], s.id, list + [|procs|])
  {
    IdsAppend(done, [s]);
    assert s in [s];
    hide Ids;
    var before, after := procs + [Process(entry, done)], procs + [Process(entry, done + [s])];
    forall i | 0 <= i < |list|
      ensures list[i] < |procs|
    {
      assert TakesPart(before, s.id, list[i]);
    }
    forall p: nat
      ensures p in list + [|procs|] <==> TakesPart(after, s.id, p)
    {
      assert p in list <==> TakesPart(before, s.id, p);
    }
  }

  lemma ListStays(procs: seq<Process>, entry: Id, done: seq<Step>, s: Step, id: Id, list: seq<nat>)
    requires ListExact(procs + [Process(entry, done)], id, list) && s.id != id
    ensures ListExact(procs + [Process(entry, done + [s])], id, list)
  {
    IdsAppend(done, [s]);
    assert Ids([s]) == {s.id};
    hide Ids, Increasing;
    var before, after := procs + [Process(entry, done)], procs + [Process(entry, done + [s])];
    forall p: nat
      ensures p in list <==> TakesPart(after, id, p)
    {
      assert p in list <==> TakesPart(before, id, p);
    }
  }

  lemma EnterStep(procs: seq<Process>, entry: Id, done: seq<Step>, index: NodeToProcs, s: Step)
    requires IndexExact(procs + [Process(entry, done)], index) && s.id !in Ids(done)
    ensures IndexExact(procs + [Process(entry, done + [s])], index[s.id := ProcsOf(index, s.id) + [|procs|]])
  {
    hide ListExact, Ids;
    var index' := index[s.id := ProcsOf(index, s.id) + [|procs|]];
    forall id
      ensures ListExact(procs + [Process(entry, done + [s])], id, ProcsOf(index', id))
    {
      assert ListExact(procs + [Process(entry, done)], id, ProcsOf(index, id));
      if id == s.id {
        ListGrows(procs, entry, done, s, ProcsOf(index, id));
      } else {
        ListStays(procs, entry, done, s, id, ProcsOf(index, id));
      }
    }
  }

  /** A process without steps takes nothing into the index. */
  lemma NoneEntered(procs: seq<Process>, entry: Id, index: NodeToProcs)
    requires IndexExact(procs, index)
    ensures IndexExact(procs + [Process(entry, [])], index)
  {
    NoIds();
    hide Ids, Increasing;
    var more := procs + [Process(entry, [])];
    forall id
      ensures ListExact(more, id, ProcsOf(index, id))
    {
      assert ListExact(procs, id, ProcsOf(index, id));
      forall p: nat
        ensures p in ProcsOf(index, id) <==> TakesPart(more, id, p)
      {
        assert p in ProcsOf(index, id) <==> TakesPart(procs, id, p);
      }
    }
  }

  /** Adds the process to the lists of its steps; distinct steps add it once to each. */
  method EnterProcess(ghost procs: seq<Process>, proc: Process, p: nat, index0: NodeToProcs) returns (index: NodeToProcs)
    requires IndexExact(procs, index0) && p == |procs| && DistinctIds(proc.steps)
    ensures IndexExact(procs + [proc], index)
  {
    hide IndexExact, DistinctIds, Ids;
    index := index0;
    NoneEntered(procs, proc.entryPoint, index);
    for k := 0 to |proc.steps|
      invariant IndexExact(procs + [Process(proc.entryPoint, proc.steps[..k])], index)
    {
      var s := proc.steps[k];
      NotYet(proc.steps, k);
      assert proc.steps[..k + 1] == proc.steps[..k] + [s];
      EnterStep(procs, proc.entryPoint, proc.steps[..k], index, s);
      index := index[s.id := ProcsOf(index, s.id) + [p]];
    }
    assert proc.steps[..|proc.steps|] == proc.steps;
    assert proc == Process(proc.entryPoint, proc.steps);
  }

  lemma NotYet(steps: seq<Step>, k: nat)
    requires DistinctIds(steps) && k < |steps|
    ensures steps[k].id !in Ids(steps[..k])
  {
  }

  function Trace(callees: Callees, entry: Id): seq<Step>
  {
    Walk1(callees, entry, 0, MAX_DEPTH, {})
  }

  ghost predicate HasEntry(procs: seq<Process>, c: Id)
  {
    exists p :: 0 <= p < |procs| && procs[p].entryPoint == c
  }

  /** a stands in the list before b does anywhere. */
  ghost predicate Precedes(list: seq<Id>, a: Id, b: Id)
  {
    exists i :: 0 <= i < |list| && list[i] == a && b !in list[..i + 1]
  }

  /** In the order of the candidates, the first n candidates that lead anywhere, each with its trace, and only those. */
  ghost predicate Traced(callees: Callees, candidates: seq<Id>, n: nat, procs: seq<Process>)
  {
    && n <= |candidates| && |procs| <= n
    && (forall p :: 0 <= p < |procs| ==> procs[p].entryPoint in candidates[..n])
    && (forall p :: 0 <= p < |procs| ==> procs[p].steps == Trace(callees, procs[p].entryPoint) && |procs[p].steps| >= 2)
    && (forall p, q :: 0 <= p < q < |procs| ==> procs[p].entryPoint != procs[q].entryPoint)
    && (forall p, q :: 0 <= p < q < |procs| ==> Precedes(candidates, procs[p].entryPoint, procs[q].entryPoint))
    && (forall c :: c in candidates[..n] && |Trace(callees, c)| >= 2 ==> HasEntry(procs, c))
  }

  ghost predicate Entered(procs: seq<Process>, seen: set<Id>)
  {
    forall c :: c in seen <==> HasEntry(procs, c)
  }

  lemma SkipCandidate(callees: Callees, candidates: seq<Id>, n: nat, procs: seq<Process>, seen: set<Id>)
    requires Traced(callees, candidates, n, procs) && Entered(procs, seen) && n < |candidates|
    requires candidates[n] in seen || |Trace(callees, candidates[n])| < 2
    ensures Traced(callees, candidates, n + 1, procs)
  {
    hide Trace;
    assert candidates[..n + 1] == candidates[..n] + [candidates[n]];
  }

  lemma TakeCandidate(callees: Callees, candidates: seq<Id>, n: nat, procs: seq<Process>, seen: set<Id>)
    requires Traced(callees, candidates, n, procs) && Entered(procs, seen) && n < |candidates|
    requires candidates[n] !in seen && |Trace(callees, candidates[n])| >= 2
    ensures Traced(callees, candidates, n + 1, procs + [Process(candidates[n], Trace(callees, candidates[n]))])
    ensures Entered(procs + [Process(candidates[n], Trace(callees, candidates[n]))], seen + {candidates[n]})
  {
    hide Trace;
    var c := candidates[n];
    var procs' := procs + [Process(c, Trace(callees, c))];
    assert candidates[..n + 1] == candidates[..n] + [c];
    assert c !in candidates[..n];
    forall p | 0 <= p < |procs|
      ensures procs'[p] == procs[p] && procs[p].entryPoint in seen && Precedes(candidates, procs[p].entryPoint, c)
    {
      assert HasEntry(procs, procs[p].entryPoint);
      TakenEarlier(candidates, n, procs[p].entryPoint, c);
    }
    hide Precedes;
    forall d
      ensures HasEntry(procs', d) <==> d in seen || d == c
    {
      OneMoreEntry(procs, procs'[|procs|], d);
    }
    hide HasEntry;
  }

  lemma TakenEarlier(candidates: seq<Id>, n: nat, a: Id, c: Id)
    requires n < |candidates| && a in candidates[..n] && c !in candidates[..n]
    ensures Precedes(candidates, a, c)
  {
    var i :| 0 <= i < n && candidates[i] == a;
    forall k | 0 <= k < i + 1
      ensures candidates[k] != c
    {
      assert candidates[k] in candidates[..n];
    }
  }

  lemma OneMoreEntry(procs: seq<Process>, proc: Process, c: Id)
    ensures HasEntry(procs + [proc], c) <==> HasEntry(procs, c) || c == proc.entryPoint
  {
    assert (procs + [proc])[|procs|] == proc;
    if p :| 0 <= p < |procs| && procs[p].entryPoint == c {
      assert (procs + [proc])[p].entryPoint == c;
    }
  }

  method TraceProcesses(candidates: seq<Id>, callees: Callees) returns (procs: seq<Process>, index: NodeToProcs)
    ensures Traced(callees, candidates, if |candidates| <= 50 then |candidates| else 50, procs)
    ensures IndexExact(procs, index) && |procs| <= 50
    ensures forall p :: 0 <= p < |procs| ==> procs[p].steps == Walk1(callees, procs[p].entryPoint, 0, 15, {})
  {
    hide Traced, IndexExact, Entered, Walk1;
    procs, index := [], map[];
    var seen: set<Id> := {};
    NoProcesses(callees, candidates);
    var i := 0;
    while i < |candidates|
      invariant 0 <= i <= |candidates| && i <= MAX_PROCESSES
      invariant Traced(callees, candidates, i, procs) && Entered(procs, seen) && IndexExact(procs, index)
    {
      if i >= MAX_PROCESSES {
        break;
      }
      var c := candidates[i];
      if c in seen {
        SkipCandidate(callees, candidates, i, procs, seen);
        i := i + 1;
        continue;
      }
      var steps := TraceForward(c, callees, MAX_DEPTH);
      if |steps| < 2 {
        SkipCandidate(callees, candidates, i, procs, seen);
        i := i + 1;
        continue;
      }
      TakeCandidate(callees, candidates, i, procs, seen);
      Walk1Distinct(callees, c, 0, MAX_DEPTH, {});
      seen := seen + {c};
      var proc := Process(c, steps);
      index := EnterProcess(procs, proc, |procs|, index);
      procs := procs + [proc];
      i := i + 1;
    }
    TracedSteps(callees, candidates, i, procs);
  }

  lemma TracedSteps(callees: Callees, candidates: seq<Id>, n: nat, procs: seq<Process>)
    requires Traced(callees, candidates, n, procs)
    ensures |procs| <= n && forall p :: 0 <= p < |procs| ==> procs[p].steps == Walk1(callees, procs[p].entryPoint, 0, MAX_DEPTH, {})
  {
    hide Walk1;
  }

  lemma NoProcesses(callees: Callees, candidates: seq<Id>)
    ensures Traced(callees, candidates, 0, []) && Entered([], {}) && IndexExact([], map[])
  {
  }
}
