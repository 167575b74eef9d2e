/** internal/analysis/impact.go: what a change to a set of symbols affects, tier by tier.
    The tiers are proved to be the symbols at shortest distance 1, 2 and 3. */
module Impact {
  import opened Reachability
  import opened CodeGraph
  import opened Paths

  // ---------------------------------------------------------------- distances

  type InEdges = map<Id, seq<Edge>>

  function InEdgesOf(ins: InEdges, id: Id): seq<Edge>
  {
    if id in ins then ins[id] else []
  }

  predicate Structural(k: EdgeKind)
  {
    k == Defines || k == MemberOf
  }

  /** Arcs from a symbol to what depends on it. */
  ghost function DependentArcs(ins: InEdges): Arcs
  {
    set id, e | id in ins && e in ins[id] && !Structural(e.kind) :: (id, e.from)
  }

  /** A walk of n arcs leads from some seed to x. */
  ghost predicate From(arcs: Arcs, seeds: seq<Id>, n: nat, x: Id)
  {
    exists s :: s in seeds && Walk(arcs, n, s, x)
  }

  /** The shortest walk from the seeds to x has d arcs. */
  ghost predicate AtDistance(arcs: Arcs, seeds: seq<Id>, d: nat, x: Id)
  {
    From(arcs, seeds, d, x) && forall n: nat :: n < d ==> !From(arcs, seeds, n, x)
  }

  ghost predicate Near(arcs: Arcs, seeds: seq<Id>, d: nat, x: Id)
  {
    exists n: nat :: n <= d && From(arcs, seeds, n, x)
  }

  lemma FromNext(arcs: Arcs, seeds: seq<Id>, n: nat, x: Id)
    ensures From(arcs, seeds, n + 1, x) <==> exists y :: From(arcs, seeds, n, y) && (y, x) in arcs
  {
    if From(arcs, seeds, n + 1, x) {
      var s :| s in seeds && Walk(arcs, n + 1, s, x);
      var y := WalkLast(arcs, n, s, x);
      assert From(arcs, seeds, n, y);
    }
    if y :| From(arcs, seeds, n, y) && (y, x) in arcs {
      var s :| s in seeds && Walk(arcs, n, s, y);
      assert Walk(arcs, 0, x, x);
      assert Walk(arcs, 1, y, x);
      WalkTrans(arcs, n, s, y, 1, x);
    }
  }

  /** The next tier: one arc beyond this one, and not nearer. */
  lemma NextTier(arcs: Arcs, seeds: seq<Id>, d: nat, x: Id)
    ensures AtDistance(arcs, seeds, d + 1, x) <==>
      !Near(arcs, seeds, d, x) && exists y :: AtDistance(arcs, seeds, d, y) && (y, x) in arcs
    ensures Near(arcs, seeds, d + 1, x) <==> Near(arcs, seeds, d, x) || AtDistance(arcs, seeds, d + 1, x)
  {
    hide From;
    FromNext(arcs, seeds, d, x);
    if AtDistance(arcs, seeds, d + 1, x) {
      var y :| From(arcs, seeds, d, y) && (y, x) in arcs;
      forall n: nat | n < d
        ensures !From(arcs, seeds, n, y)
      {
        FromNext(arcs, seeds, n, x);
        assert !From(arcs, seeds, n + 1, x);
      }
      assert AtDistance(arcs, seeds, d, y);
    }
  }

  lemma OneDistance(arcs: Arcs, seeds: seq<Id>, d: nat, d': nat, x: Id)
    requires AtDistance(arcs, seeds, d, x) && AtDistance(arcs, seeds, d', x)
    ensures d == d'
  {
    hide From;
    assert d < d' ==> !From(arcs, seeds, d, x);
    assert d' < d ==> !From(arcs, seeds, d', x);
  }

  lemma TierZero(arcs: Arcs, seeds: seq<Id>, x: Id)
    ensures AtDistance(arcs, seeds, 0, x) <==> x in seeds
    ensures Near(arcs, seeds, 0, x) <==> x in seeds
  {
    assert From(arcs, seeds, 0, x) <==> x in seeds by {
      if x in seeds {
        assert Walk(arcs, 0, x, x);
      }
    }
    hide From;
  }

  // ---------------------------------------------------------------- results

  datatype Entry = Entry(id: Id, name: string, kind: NodeKind, filePath: string, line: int, repoPrefix: string, confidence: real)

  datatype Risk = Low | Medium | High | Critical

  datatype Report = Report(risk: Risk, byDepth: map<int, seq<Entry>>, testFiles: seq<string>, totalAffected: nat)

  type Nodes = map<Id, Node>

  function Tier(byDepth: map<int, seq<Entry>>, d: int): seq<Entry>
  {
    if d in byDepth then byDepth[d] else []
  }

  predicate Reported(nodes: Nodes, x: Id)
  {
    x in nodes && nodes[x].kind != FileNode && nodes[x].kind != ImportNode
  }

  function MakeEntry(n: Node, confidence: real): Entry
  {
    Entry(n.id, n.name, n.kind, n.filePath, n.startLine, n.repoPrefix, confidence)
  }

  /** The entry shows this node's data and this confidence. */
  ghost predicate Copies(entry: Entry, n: Node, confidence: real)
  {
    && entry.id == n.id && entry.name == n.name && entry.kind == n.kind && entry.filePath == n.filePath
    && entry.line == n.startLine && entry.repoPrefix == n.repoPrefix && entry.confidence == confidence
  }

  function EntryIds(entries: seq<Entry>): seq<Id>
  {
    seq(|entries|, i requires 0 <= i < |entries| => entries[i].id)
  }

  /** The entry shows the symbol's own data and the confidence of an edge of this tier. */
  ghost predicate Shows(nodes: Nodes, ins: InEdges, tier: seq<Id>, entry: Entry)
  {
    && entry.id in nodes
    && exists id, e :: id in tier && e in InEdgesOf(ins, id) && e.from == entry.id && !Structural(e.kind)
                       && Copies(entry, nodes[entry.id], e.confidence)
  }

  predicate ContainsAt(s: string, p: string, i: int)
  {
    0 <= i <= |s| - |p| && s[i..i + |p|] == p
  }

  ghost predicate ContainsAnyOf(s: string, patterns: seq<string>)
  {
    exists k, i :: 0 <= k < |patterns| && ContainsAt(s, patterns[k], i)
  }

  const TEST_PATTERNS := ["_test.go", ".test.ts", ".test.js", ".spec.ts", ".spec.js", "__tests__/", "test_"]

  method ContainsAny(s: string, patterns: seq<string>) returns (found: bool)
    ensures found <==> ContainsAnyOf(s, patterns)
  {
    for k := 0 to |patterns|
      invariant forall j, i :: 0 <= j < k ==> !ContainsAt(s, patterns[j], i)
    {
      var p := patterns[k];
      if |s| >= |p| {
        for i := 0 to |s| - |p| + 1
          invariant forall j :: 0 <= j < i ==> !ContainsAt(s, p, j)
        {
          if s[i..i + |p|] == p {
            assert ContainsAt(s, patterns[k], i);
            return true;
          }
        }
      }
    }
    return false;
  }

  /** The distinct strings, each where it first occurs. */
  ghost function Firsts(ss: seq<string>): seq<string>
  {
    if ss == [] then []
    else
      var front, last := ss[..|ss| - 1], ss[|ss| - 1];
      if last in front then Firsts(front) else Firsts(front) + [last]
  }

  lemma {:induction false} FirstsMean(ss: seq<string>)
    ensures NoRepeats(Firsts(ss)) && forall x :: x in Firsts(ss) <==> x in ss
    decreases |ss|
  {
    if ss != [] {
      var front, last := ss[..|ss| - 1], ss[|ss| - 1];
      FirstsMean(front);
      assert ss == front + [last];
    }
  }

  method Dedup(ss: seq<string>) returns (out: seq<string>)
    ensures out == Firsts(ss)
    ensures NoRepeats(out) && forall x :: x in out <==> x in ss
  {
    var seen: set<string> := {};
    out := [];
    for i := 0 to |ss|
      invariant forall x :: x in seen <==> x in ss[..i]
      invariant out == Firsts(ss[..i])
    {
      assert ss[..i + 1][..i] == ss[..i] && ss[..i + 1] == ss[..i] + [ss[i]];
      if ss[i] !in seen {
        seen := seen + {ss[i]};
        out := out + [ss[i]];
      }
    }
    assert ss[..|ss|] == ss;
    FirstsMean(ss);
  }

  // ---------------------------------------------------------------- one tier of the search

  /** Targets of the arcs that leave a list of symbols. */
  ghost predicate Follows(arcs: Arcs, tier: seq<Id>, x: Id)
  {
    exists y :: y in tier && (y, x) in arcs
  }

  /** What a tier leaves behind: `next` are the newly visited ids, `entries` those to report. */
  ghost predicate TierState(nodes: Nodes, ins: InEdges, tier: seq<Id>, before: set<Id>,
                            visited: set<Id>, next: seq<Id>, entries: seq<Entry>)
  {
    && before <= visited && NoRepeats(next) && NoRepeats(EntryIds(entries))
    && (forall x :: x in next <==> x in visited && x !in before)
    && (forall x :: x in visited && x !in before ==> Follows(DependentArcs(ins), tier, x))
    && (forall x :: x in EntryIds(entries) <==> x in next && Reported(nodes, x))
    && (forall e :: e in entries ==> Shows(nodes, ins, tier, e))
  }

  lemma Visit(nodes: Nodes, ins: InEdges, tier: seq<Id>, before: set<Id>, visited: set<Id>, next: seq<Id>, entries: seq<Entry>,
              id: Id, e: Edge)
    requires TierState(nodes, ins, tier, before, visited, next, entries)
    requires forall k :: k in nodes ==> nodes[k].id == k
    requires id in tier && e in InEdgesOf(ins, id) && !Structural(e.kind) && e.from !in visited
    ensures TierState(nodes, ins, tier, before, visited + {e.from}, next + [e.from],
                      if Reported(nodes, e.from) then entries + [MakeEntry(nodes[e.from], e.confidence)] else entries)
  {
    assert (id, e.from) in DependentArcs(ins);
    hide DependentArcs, Structural, InEdgesOf;
    assert Follows(DependentArcs(ins), tier, e.from);
    if Reported(nodes, e.from) {
      var made := MakeEntry(nodes[e.from], e.confidence);
      assert Shows(nodes, ins, tier, made);
      assert EntryIds(entries + [made]) == EntryIds(entries) + [e.from];
    }
    hide Shows, Follows;
  }

  // ---------------------------------------------------------------- the order of the search

  ghost function Kept(edges: seq<Edge>): seq<Edge>
  {
    if edges == [] then []
    else
      var front, last := Kept(edges[..|edges| - 1]), edges[|edges| - 1];
      if last.kind == Defines || last.kind == MemberOf then front else front + [last]
  }

  /** The dependency edges into the listed symbols, symbol by symbol. */
  ghost function Dependencies(ins: InEdges, list: seq<Id>): seq<Edge>
  {
    if list == [] then [] else Dependencies(ins, list[..|list| - 1]) + Kept(InEdgesOf(ins, list[|list| - 1]))
  }

  ghost function Froms(edges: seq<Edge>): seq<Id>
  {
    seq(|edges|, i requires 0 <= i < |edges| => edges[i].from)
  }

  /** Of the edges from symbols not known before, the first from each. */
  ghost function Fresh(edges: seq<Edge>, before: set<Id>): seq<Edge>
  {
    if edges == [] then []
    else
      var front, last := Fresh(edges[..|edges| - 1], before), edges[|edges| - 1];
      if last.from in before || last.from in Froms(front) then front else front + [last]
  }

  /** No edge before position i comes from the same symbol. */
  ghost predicate FirstFrom(edges: seq<Edge>, i: int)
  {
    0 <= i < |edges| && forall j :: 0 <= j < i ==> edges[j].from != edges[i].from
  }

  ghost predicate IsFirst(edges: seq<Edge>, e: Edge)
  {
    exists i :: FirstFrom(edges, i) && edges[i] == e
  }

  lemma FirstFromFront(front: seq<Edge>, last: Edge, i: int)
    requires i < |front|
    ensures FirstFrom(front + [last], i) <==> FirstFrom(front, i)
  {
    if 0 <= i {
      assert forall j :: 0 <= j <= i ==> (front + [last])[j] == front[j];
    }
  }

  lemma FirstFromLast(front: seq<Edge>, last: Edge)
    ensures FirstFrom(front + [last], |front|) <==> last.from !in Froms(front)
    ensures Froms(front + [last]) == Froms(front) + [last.from]
  {
    var edges := front + [last];
    assert forall j :: 0 <= j < |front| ==> edges[j].from == front[j].from == Froms(front)[j];
    assert forall j :: 0 <= j < |front| ==> edges[j].from in Froms(front);
  }

  lemma FirstAmong(front: seq<Edge>, last: Edge, e: Edge)
    ensures IsFirst(front + [last], e) <==> IsFirst(front, e) || (e == last && last.from !in Froms(front))
    ensures Froms(front + [last]) == Froms(front) + [last.from]
  {
    var edges := front + [last];
    FirstFromLast(front, last);
    forall i | i < |front|
      ensures FirstFrom(edges, i) <==> FirstFrom(front, i)
    {
      FirstFromFront(front, last, i);
    }
    hide Froms;
    if i :| FirstFrom(front, i) && front[i] == e {
      assert FirstFrom(edges, i) && edges[i] == e;
    }
    if i :| FirstFrom(edges, i) && edges[i] == e {
      assert i < |front| ==> front[i] == e;
    }
  }

  /** What is kept is the first edge from each symbol not known before. */
  lemma {:induction false} FreshMeans(edges: seq<Edge>, before: set<Id>, e: Edge)
    ensures e in Fresh(edges, before) <==> e.from !in before && IsFirst(edges, e)
    ensures forall x :: x in Froms(Fresh(edges, before)) <==> x !in before && x in Froms(edges)
    decreases |edges|
  {
    hide Froms, IsFirst;
    if edges == [] {
      NoFirst(e);
    } else {
      var front, last := edges[..|edges| - 1], edges[|edges| - 1];
      assert edges == front + [last];
      FreshMeans(front, before, e);
      FirstAmong(front, last, e);
      FirstAmong(Fresh(front, before), last, e);
    }
  }

  lemma NoFirst(e: Edge)
    ensures !IsFirst([], e) && Froms([]) == []
  {
  }

  /** The symbols to report, in the order in which they are met. */
  ghost function EntriesOf(nodes: Nodes, newest: seq<Edge>): seq<Entry>
  {
    if newest == [] then []
    else
      var front, last := EntriesOf(nodes, newest[..|newest| - 1]), newest[|newest| - 1];
      if Reported(nodes, last.from) then front + [MakeEntry(nodes[last.from], last.confidence)] else front
  }

  /** After these edges: the queue, the visited symbols and the entries are what Fresh says. */
  ghost predicate Queued(nodes: Nodes, before: set<Id>, scanned: seq<Edge>, visited: set<Id>, next: seq<Id>, entries: seq<Entry>)
  {
    && next == Froms(Fresh(scanned, before))
    && visited == before + (set x | x in next)
    && entries == EntriesOf(nodes, Fresh(scanned, before))
  }

  lemma NothingQueued(nodes: Nodes, before: set<Id>)
    ensures Queued(nodes, before, [], before, [], [])
  {
  }

  lemma QueueSkip(nodes: Nodes, before: set<Id>, scanned: seq<Edge>, visited: set<Id>, next: seq<Id>, entries: seq<Entry>, e: Edge)
    requires Queued(nodes, before, scanned, visited, next, entries) && e.from in visited
    ensures Queued(nodes, before, scanned + [e], visited, next, entries)
  {
    assert (scanned + [e])[..|scanned|] == scanned;
  }

  lemma QueueTake(nodes: Nodes, before: set<Id>, scanned: seq<Edge>, visited: set<Id>, next: seq<Id>, entries: seq<Entry>, e: Edge)
    requires Queued(nodes, before, scanned, visited, next, entries) && e.from !in visited
    ensures Queued(nodes, before, scanned + [e], visited + {e.from}, next + [e.from],
                   if Reported(nodes, e.from) then entries + [MakeEntry(nodes[e.from], e.confidence)] else entries)
  {
    var f := Fresh(scanned, before);
    assert (scanned + [e])[..|scanned|] == scanned;
    assert Fresh(scanned + [e], before) == f + [e];
    assert (f + [e])[..|f|] == f;
    assert Froms(f + [e]) == Froms(f) + [e.from];
    assert forall x :: x in next + [e.from] <==> x in next || x == e.from;
    hide Fresh, Reported;
  }

  lemma KeptNext(edges: seq<Edge>, i: nat)
    requires i < |edges|
    ensures Kept(edges[..i + 1]) == if Structural(edges[i].kind) then Kept(edges[..i]) else Kept(edges[..i]) + [edges[i]]
  {
    assert edges[..i + 1][..i] == edges[..i];
  }

  method Expand(nodes: Nodes, ins: InEdges, ghost tier: seq<Id>, ghost before: set<Id>, id: Id, ghost scanned0: seq<Edge>,
                visited0: set<Id>, next0: seq<Id>, entries0: seq<Entry>, tests0: seq<string>)
    returns (visited: set<Id>, next: seq<Id>, entries: seq<Entry>, tests: seq<string>)
    requires TierState(nodes, ins, tier, before, visited0, next0, entries0)
    requires Queued(nodes, before, scanned0, visited0, next0, entries0)
    requires (forall k :: k in nodes ==> nodes[k].id == k) && id in tier
    ensures TierState(nodes, ins, tier, before, visited, next, entries)
    ensures Queued(nodes, before, scanned0 + Kept(InEdgesOf(ins, id)), visited, next, entries)
    ensures visited0 <= visited && forall e :: e in InEdgesOf(ins, id) && !Structural(e.kind) ==> e.from in visited
    ensures entries0 <= entries && tests == tests0 + TestPaths(entries[|entries0|..])
  {
    hide TierState, ContainsAnyOf, Queued, Kept, TestPaths;
    visited, next, entries, tests := visited0, next0, entries0, tests0;
    var edges := InEdgesOf(ins, id);
    ghost var scanned := scanned0;
    NothingKept(edges);
    NoTestPaths();
    assert entries0[|entries0|..] == [];
    for i := 0 to |edges|
      invariant TierState(nodes, ins, tier, before, visited, next, entries)
      invariant scanned == scanned0 + Kept(edges[..i]) && Queued(nodes, before, scanned, visited, next, entries)
      invariant visited0 <= visited && forall j :: 0 <= j < i && !Structural(edges[j].kind) ==> edges[j].from in visited
      invariant entries0 <= entries && tests == tests0 + TestPaths(entries[|entries0|..])
    {
      var e := edges[i];
      KeptNext(edges, i);
      if e.from in visited {
        if !Structural(e.kind) {
          QueueSkip(nodes, before, scanned, visited, next, entries, e);
          scanned := scanned + [e];
        }
        continue;
      }
      if e.kind == Defines || e.kind == MemberOf {
        continue;
      }
      Visit(nodes, ins, tier, before, visited, next, entries, id, e);
      QueueTake(nodes, before, scanned, visited, next, entries, e);
      scanned := scanned + [e];
      visited := visited + {e.from};
      next := next + [e.from];
      if e.from !in nodes || nodes[e.from].kind == FileNode || nodes[e.from].kind == ImportNode {
        continue;
      }
      var n := nodes[e.from];
      var entry := MakeEntry(n, e.confidence);
      var isTest := ContainsAny(n.filePath, TEST_PATTERNS);
      NextTestPath(entries[|entries0|..], entry);
      assert entries[|entries0|..] + [entry] == (entries + [entry])[|entries0|..];
      entries := entries + [entry];
      if isTest {
        tests := tests + [n.filePath];
      }
    }
    assert edges[..|edges|] == edges;
  }

  lemma NothingKept(edges: seq<Edge>)
    ensures edges[..0] == [] && Kept([]) == []
  {
  }

  // ---------------------------------------------------------------- test files

  ghost predicate InTestFile(path: string)
  {
    ContainsAnyOf(path, ["_test.go", ".test.ts", ".test.js", ".spec.ts", ".spec.js", "__tests__/", "test_"])
  }

  ghost predicate IsTest(e: Entry)
  {
    InTestFile(e.filePath)
  }

  /** The paths of the entries that are in test files, in order. */
  ghost function TestPaths(entries: seq<Entry>): seq<string>
  {
    if entries == [] then []
    else
      var front, last := TestPaths(entries[..|entries| - 1]), entries[|entries| - 1];
      if IsTest(last) then front + [last.filePath] else front
  }

  lemma NoTestPaths()
    ensures TestPaths([]) == []
  {
  }

  lemma NextTestPath(entries: seq<Entry>, e: Entry)
    ensures TestPaths(entries + [e]) == if IsTest(e) then TestPaths(entries) + [e.filePath] else TestPaths(entries)
  {
    assert (entries + [e])[..|entries|] == entries;
  }

  lemma {:induction false} TestPathsAppend(a: seq<Entry>, b: seq<Entry>)
    ensures TestPaths(a + b) == TestPaths(a) + TestPaths(b)
    decreases |b|
  {
    if b == [] {
      assert a + b == a;
    } else {
      var n := |b| - 1;
      assert (a + b)[..|a + b| - 1] == a + b[..n];
      TestPathsAppend(a, b[..n]);
    }
  }

  lemma {:induction false} TestPathsItems(entries: seq<Entry>, f: string)
    ensures f in TestPaths(entries) <==> exists e :: e in entries && IsTest(e) && e.filePath == f
    decreases |entries|
  {
    hide IsTest;
    if entries != [] {
      var front, last := entries[..|entries| - 1], entries[|entries| - 1];
      TestPathsItems(front, f);
      assert forall e :: e in entries <==> e in front || e == last;
    }
  }

  // ---------------------------------------------------------------- the whole search

  /** visited and current are what the distances say they should be. */
  ghost predicate Frontier(arcs: Arcs, seeds: seq<Id>, d: nat, visited: set<Id>, current: seq<Id>)
  {
    forall x :: (x in visited <==> Near(arcs, seeds, d, x)) && (x in current <==> AtDistance(arcs, seeds, d, x))
  }

  /** The entries of depth d are exactly the reportable symbols at distance d, once each. */
  ghost predicate TierExact(nodes: Nodes, ins: InEdges, seeds: seq<Id>, d: nat, entries: seq<Entry>)
  {
    && NoRepeats(EntryIds(entries))
    && (forall x :: x in EntryIds(entries) <==> AtDistance(DependentArcs(ins), seeds, d, x) && Reported(nodes, x))
    && (forall e :: e in entries ==> ShownAt(nodes, ins, seeds, d, e))
  }

  /** The entry copies the symbol's node and the confidence of an edge to a symbol one step nearer. */
  ghost predicate ShownAt(nodes: Nodes, ins: InEdges, seeds: seq<Id>, d: nat, entry: Entry)
  {
    && entry.id in nodes && d > 0
    && exists id, e :: AtDistance(DependentArcs(ins), seeds, d - 1, id) && e in InEdgesOf(ins, id) && e.from == entry.id
                       && !Structural(e.kind) && Copies(entry, nodes[entry.id], e.confidence)
  }

  lemma TierReached(nodes: Nodes, ins: InEdges, seeds: seq<Id>, d: nat, before: set<Id>, tier: seq<Id>,
                    visited: set<Id>, next: seq<Id>, entries: seq<Entry>)
    requires Frontier(DependentArcs(ins), seeds, d, before, tier)
    requires TierState(nodes, ins, tier, before, visited, next, entries)
    requires forall x :: Follows(DependentArcs(ins), tier, x) ==> x in visited
    ensures Frontier(DependentArcs(ins), seeds, d + 1, visited, next)
    ensures TierExact(nodes, ins, seeds, d + 1, entries)
  {
    hide AtDistance, Near, DependentArcs, NoRepeats, EntryIds, Reported, InEdgesOf, Structural;
    var arcs := DependentArcs(ins);
    forall x
      ensures x in visited <==> Near(arcs, seeds, d + 1, x)
      ensures x in next <==> AtDistance(arcs, seeds, d + 1, x)
    {
      NextTier(arcs, seeds, d, x);
      assert x in before <==> Near(arcs, seeds, d, x);
      assert Follows(arcs, tier, x) <==> exists y :: AtDistance(arcs, seeds, d, y) && (y, x) in arcs;
    }
    forall e | e in entries
      ensures ShownAt(nodes, ins, seeds, d + 1, e)
    {
      assert Shows(nodes, ins, tier, e);
    }
  }

  lemma NothingYet(nodes: Nodes, ins: InEdges, tier: seq<Id>, visited: set<Id>)
    ensures TierState(nodes, ins, tier, visited, visited, [], [])
  {
  }

  /** One round of the outer loop. */
  method AdvanceTier(nodes: Nodes, ins: InEdges, ghost seeds: seq<Id>, ghost d: nat,
                     visited0: set<Id>, current: seq<Id>, tests0: seq<string>)
    returns (visited: set<Id>, next: seq<Id>, entries: seq<Entry>, tests: seq<string>)
    requires forall k :: k in nodes ==> nodes[k].id == k
    requires Frontier(DependentArcs(ins), seeds, d, visited0, current)
    ensures Frontier(DependentArcs(ins), seeds, d + 1, visited, next)
    ensures TierExact(nodes, ins, seeds, d + 1, entries)
    ensures Queued(nodes, visited0, Dependencies(ins, current), visited, next, entries)
    ensures tests == tests0 + TestPaths(entries)
  {
    hide TierState, Frontier, TierExact, Queued, TestPaths, Structural, Dependencies, Kept;
    visited, next, entries, tests := visited0, [], [], tests0;
    NothingYet(nodes, ins, current, visited0);
    NothingQueued(nodes, visited0);
    NoTestPaths();
    NoDependencies(ins, current);
    for i := 0 to |current|
      invariant TierState(nodes, ins, current, visited0, visited, next, entries)
      invariant Queued(nodes, visited0, Dependencies(ins, current[..i]), visited, next, entries)
      invariant tests == tests0 + TestPaths(entries)
      invariant forall j, e :: 0 <= j < i && e in InEdgesOf(ins, current[j]) && !Structural(e.kind) ==> e.from in visited
    {
      ghost var made := entries;
      NextDependencies(ins, current, i);
      visited, next, entries, tests :=
        Expand(nodes, ins, current, visited0, current[i], Dependencies(ins, current[..i]), visited, next, entries, tests);
      TestPathsAppend(made, entries[|made|..]);
      assert made + entries[|made|..] == entries;
    }
    assert current[..|current|] == current;
    forall x | Follows(DependentArcs(ins), current, x)
      ensures x in visited
    {
      var y :| y in current && (y, x) in DependentArcs(ins);
    }
    TierReached(nodes, ins, seeds, d, visited0, current, visited, next, entries);
  }

  lemma NoDependencies(ins: InEdges, current: seq<Id>)
    ensures Dependencies(ins, current[..0]) == []
  {
  }

  lemma NextDependencies(ins: InEdges, current: seq<Id>, i: nat)
    requires i < |current|
    ensures Dependencies(ins, current[..i + 1]) == Dependencies(ins, current[..i]) + Kept(InEdgesOf(ins, current[i]))
  {
    assert current[..i + 1][..i] == current[..i];
  }

  /** What is known after d rounds, the queue for the next, and the edges that led to it. */
  datatype Wave = Wave(known: set<Id>, queue: seq<Id>, edges: seq<Edge>)

  ghost function WaveAt(ins: InEdges, seeds: seq<Id>, d: nat): Wave
  {
    if d == 0 then Wave((set id | id in seeds), seeds, [])
    else
      var w := WaveAt(ins, seeds, d - 1);
      var newest := Fresh(Dependencies(ins, w.queue), w.known);
      Wave(w.known + (set x | x in Froms(newest)), Froms(newest), newest)
  }

  /** Before round `depth`: visited, the queue and the entries reported so far. */
  ghost predicate Searched(nodes: Nodes, ins: InEdges, seeds: seq<Id>, depth: nat, visited: set<Id>, current: seq<Id>,
                           byDepth: map<int, seq<Entry>>)
  {
    && depth > 0
    && visited == WaveAt(ins, seeds, depth - 1).known && current == WaveAt(ins, seeds, depth - 1).queue
    && Reports(nodes, ins, seeds, depth, byDepth)
  }

  /** The tiers before `depth` list the symbols in the order in which they were met. */
  ghost predicate Reports(nodes: Nodes, ins: InEdges, seeds: seq<Id>, depth: nat, byDepth: map<int, seq<Entry>>)
  {
    forall d {:trigger Tier(byDepth, d)} :: 1 <= d < depth ==> Tier(byDepth, d) == EntriesOf(nodes, WaveAt(ins, seeds, d).edges)
  }

  lemma NextSearched(nodes: Nodes, ins: InEdges, seeds: seq<Id>, depth: nat, visited0: set<Id>, current0: seq<Id>,
                     byDepth: map<int, seq<Entry>>, visited: set<Id>, current: seq<Id>, entries: seq<Entry>, byDepth': map<int, seq<Entry>>)
    requires Searched(nodes, ins, seeds, depth, visited0, current0, byDepth)
    requires Queued(nodes, visited0, Dependencies(ins, current0), visited, current, entries)
    requires Tier(byDepth', depth) == entries && forall d :: 1 <= d < depth ==> Tier(byDepth', d) == Tier(byDepth, d)
    ensures Searched(nodes, ins, seeds, depth + 1, visited, current, byDepth')
  {
    hide Queued, EntriesOf, Tier, WaveAt;
    NextWave(nodes, ins, seeds, depth - 1, visited, current, entries);
  }

  lemma NextWave(nodes: Nodes, ins: InEdges, seeds: seq<Id>, d: nat, visited: set<Id>, next: seq<Id>, entries: seq<Entry>)
    requires var w := WaveAt(ins, seeds, d); Queued(nodes, w.known, Dependencies(ins, w.queue), visited, next, entries)
    ensures var w := WaveAt(ins, seeds, d + 1); visited == w.known && next == w.queue && entries == EntriesOf(nodes, w.edges)
  {
    hide Fresh, EntriesOf, Dependencies;
  }

  function AssessRisk(direct: int, transitive: int): (r: Risk)
  {
    if direct >= 10 || (direct >= 5 && transitive >= 20) then Critical
    else if direct >= 5 || transitive >= 10 then High
    else if direct >= 2 || transitive >= 5 then Medium
    else Low
  }

  function Rank(r: Risk): nat
  {
    match r
    case Low => 0
    case Medium => 1
    case High => 2
    case Critical => 3
  }

  /** The affected symbols, by their distances alone. */
  ghost function Affected(nodes: Nodes, ins: InEdges, seeds: seq<Id>): set<Id>
  {
    set x | x in nodes && Reported(nodes, x) && exists d: nat :: 1 <= d <= 3 && AtDistance(DependentArcs(ins), seeds, d, x)
  }

  lemma {:induction false} DistinctCount(s: seq<Id>)
    requires NoRepeats(s)
    ensures |Items(s)| == |s|
    decreases |s|
  {
    if s != [] {
      var front, last := s[..|s| - 1], s[|s| - 1];
      DistinctCount(front);
      assert Items(s) == Items(front) + {last};
    }
  }

  lemma TierItems(nodes: Nodes, ins: InEdges, seeds: seq<Id>, d: nat, entries: seq<Entry>)
    requires TierExact(nodes, ins, seeds, d, entries)
    ensures |Items(EntryIds(entries))| == |entries|
    ensures forall x :: x in Items(EntryIds(entries)) <==> AtDistance(DependentArcs(ins), seeds, d, x) && Reported(nodes, x)
  {
    hide AtDistance, DependentArcs, ShownAt;
    DistinctCount(EntryIds(entries));
  }

  lemma TiersApart(nodes: Nodes, ins: InEdges, seeds: seq<Id>, d: nat, s: seq<Entry>, d': nat, t: seq<Entry>)
    requires TierExact(nodes, ins, seeds, d, s) && TierExact(nodes, ins, seeds, d', t) && d != d'
    ensures Items(EntryIds(s)) !! Items(EntryIds(t))
  {
    hide AtDistance, DependentArcs, TierExact, Items, EntryIds, Reported;
    TierItems(nodes, ins, seeds, d, s);
    TierItems(nodes, ins, seeds, d', t);
    forall x | x in Items(EntryIds(s))
      ensures x !in Items(EntryIds(t))
    {
      if AtDistance(DependentArcs(ins), seeds, d', x) {
        OneDistance(DependentArcs(ins), seeds, d, d', x);
      }
    }
  }

  lemma AffectedTiers(nodes: Nodes, ins: InEdges, seeds: seq<Id>, x: Id)
    ensures x in Affected(nodes, ins, seeds) <==>
      && Reported(nodes, x)
      && var arcs := DependentArcs(ins);
         AtDistance(arcs, seeds, 1, x) || AtDistance(arcs, seeds, 2, x) || AtDistance(arcs, seeds, 3, x)
  {
    hide AtDistance, DependentArcs;
  }

  /** The three tiers together hold each affected symbol once. */
  lemma TiersCount(nodes: Nodes, ins: InEdges, seeds: seq<Id>, t1: seq<Entry>, t2: seq<Entry>, t3: seq<Entry>)
    requires TierExact(nodes, ins, seeds, 1, t1) && TierExact(nodes, ins, seeds, 2, t2) && TierExact(nodes, ins, seeds, 3, t3)
    ensures |Affected(nodes, ins, seeds)| == |t1| + |t2| + |t3|
    ensures Affected(nodes, ins, seeds) == Items(EntryIds(t1)) + Items(EntryIds(t2)) + Items(EntryIds(t3))
  {
    hide AtDistance, DependentArcs, TierExact, Items, EntryIds, Affected, Reported;
    TierItems(nodes, ins, seeds, 1, t1);
    TierItems(nodes, ins, seeds, 2, t2);
    TierItems(nodes, ins, seeds, 3, t3);
    TiersApart(nodes, ins, seeds, 1, t1, 2, t2);
    TiersApart(nodes, ins, seeds, 1, t1, 3, t3);
    TiersApart(nodes, ins, seeds, 2, t2, 3, t3);
    var s1, s2, s3 := Items(EntryIds(t1)), Items(EntryIds(t2)), Items(EntryIds(t3));
    forall x
      ensures x in Affected(nodes, ins, seeds) <==> x in s1 + s2 + s3
    {
      AffectedTiers(nodes, ins, seeds, x);
    }
    assert Affected(nodes, ins, seeds) == s1 + s2 + s3;
  }

  /** Some affected symbol lives in this test file. */
  ghost predicate AffectedTest(nodes: Nodes, ins: InEdges, seeds: seq<Id>, f: string)
  {
    exists x :: x in Affected(nodes, ins, seeds) && nodes[x].filePath == f && InTestFile(f)
  }

  lemma EntryAt(nodes: Nodes, ins: InEdges, seeds: seq<Id>, d: nat, entries: seq<Entry>, x: Id) returns (e: Entry)
    requires TierExact(nodes, ins, seeds, d, entries) && x in Items(EntryIds(entries))
    ensures e in entries && e.id == x && x in nodes && e.filePath == nodes[x].filePath
  {
    var i :| 0 <= i < |entries| && EntryIds(entries)[i] == x;
    e := entries[i];
    assert ShownAt(nodes, ins, seeds, d, e);
  }

  lemma TestsAre(nodes: Nodes, ins: InEdges, seeds: seq<Id>, t1: seq<Entry>, t2: seq<Entry>, t3: seq<Entry>, tests: seq<string>, f: string)
    requires TierExact(nodes, ins, seeds, 1, t1) && TierExact(nodes, ins, seeds, 2, t2) && TierExact(nodes, ins, seeds, 3, t3)
    requires tests == TestPaths(t1 + t2 + t3)
    ensures f in tests <==> AffectedTest(nodes, ins, seeds, f)
  {
    TiersCount(nodes, ins, seeds, t1, t2, t3);
    var all := t1 + t2 + t3;
    TestPathsItems(all, f);
    hide TestPaths;
    if f in tests {
      var e :| e in all && IsTest(e) && e.filePath == f;
      EntryListed(nodes, ins, seeds, 1, t1, e);
      EntryListed(nodes, ins, seeds, 2, t2, e);
      EntryListed(nodes, ins, seeds, 3, t3, e);
      hide *;
      assert e in t1 || e in t2 || e in t3;
      assert e.id in Affected(nodes, ins, seeds);
      hide AffectedTest;
    }
    if AffectedTest(nodes, ins, seeds, f) {
      hide TierExact, Affected, EntryIds, Items, ContainsAnyOf;
      var x :| x in Affected(nodes, ins, seeds) && nodes[x].filePath == f && InTestFile(f);
      var e: Entry;
      if x in Items(EntryIds(t1)) {
        e := EntryAt(nodes, ins, seeds, 1, t1, x);
      } else if x in Items(EntryIds(t2)) {
        e := EntryAt(nodes, ins, seeds, 2, t2, x);
      } else {
        e := EntryAt(nodes, ins, seeds, 3, t3, x);
      }
      assert e in all;
    }
  }

  lemma EntryListed(nodes: Nodes, ins: InEdges, seeds: seq<Id>, d: nat, entries: seq<Entry>, e: Entry)
    requires TierExact(nodes, ins, seeds, d, entries)
    ensures e in entries ==> e.id in Items(EntryIds(entries)) && e.id in nodes && e.filePath == nodes[e.id].filePath
  {
    hide AtDistance, DependentArcs;
    if e in entries {
      var i :| 0 <= i < |entries| && entries[i] == e;
      assert EntryIds(entries)[i] == e.id;
      assert ShownAt(nodes, ins, seeds, d, e);
    }
  }

  /** Sums the tiers in whatever order the map hands them out. */
  method CountEntries(byDepth: map<int, seq<Entry>>) returns (total: nat)
    requires byDepth.Keys <= {1, 2, 3}
    ensures total == |Tier(byDepth, 1)| + |Tier(byDepth, 2)| + |Tier(byDepth, 3)|
  {
    var left := byDepth.Keys;
    total := 0;
    while left != {}
      invariant left <= byDepth.Keys
      invariant total == Counted(byDepth, left, 1) + Counted(byDepth, left, 2) + Counted(byDepth, left, 3)
      decreases left
    {
      var d :| d in left;
      total := total + |byDepth[d]|;
      left := left - {d};
    }
  }

  function Counted(byDepth: map<int, seq<Entry>>, left: set<int>, d: int): nat
  {
    if d in left then 0 else |Tier(byDepth, d)|
  }

  /** AnalyzeImpact, up to the risk level: tiers by shortest distance, counts, test files. */
  method AnalyzeImpact(nodes: Nodes, ins: InEdges, symbolIds: seq<Id>) returns (report: Report)
    requires forall k :: k in nodes ==> nodes[k].id == k
    ensures forall d :: 1 <= d <= 3 ==> TierExact(nodes, ins, symbolIds, d, Tier(report.byDepth, d))
    ensures Reports(nodes, ins, symbolIds, 4, report.byDepth)
    ensures report.testFiles == Firsts(TestPaths(Tier(report.byDepth, 1) + Tier(report.byDepth, 2) + Tier(report.byDepth, 3)))
    ensures report.byDepth.Keys <= {1, 2, 3}
    ensures report.totalAffected == |Affected(nodes, ins, symbolIds)|
    ensures NoRepeats(report.testFiles) && forall f :: f in report.testFiles <==> AffectedTest(nodes, ins, symbolIds, f)
    ensures report.risk == AssessRisk(|Tier(report.byDepth, 1)|, |Tier(report.byDepth, 2)|)
  {
    hide Frontier, TierExact, AffectedTest, Affected, NoRepeats, Queued, Searched, Reports, TestPaths, Firsts;
    var visited: set<Id> := set id | id in symbolIds;
    var current, tests := symbolIds, [];
    var byDepth: map<int, seq<Entry>> := map[];
    Start(DependentArcs(ins), symbolIds, visited);
    NoTestPaths();
    FirstSearched(nodes, ins, symbolIds);
    ghost var all: seq<Entry> := [];
    for depth := 1 to 4
      invariant Frontier(DependentArcs(ins), symbolIds, depth - 1, visited, current)
      invariant forall d :: 1 <= d < depth ==> TierExact(nodes, ins, symbolIds, d, Tier(byDepth, d))
      invariant forall d :: d in byDepth ==> 1 <= d < depth
      invariant tests == TestPaths(all)
      invariant Searched(nodes, ins, symbolIds, depth, visited, current, byDepth)
      invariant depth == 1 ==> all == []
      invariant depth == 2 ==> all == Tier(byDepth, 1)
      invariant depth == 3 ==> all == Tier(byDepth, 1) + Tier(byDepth, 2)
      invariant depth == 4 ==> all == Tier(byDepth, 1) + Tier(byDepth, 2) + Tier(byDepth, 3)
    {
      ghost var older, visited', current' := byDepth, visited, current;
      var entries;
      visited, current, entries, tests := AdvanceTier(nodes, ins, symbolIds, depth - 1, visited, current, tests);
      TestPathsAppend(all, entries);
      if entries != [] {
        byDepth := byDepth[depth := entries];
      }
      assert forall d :: 1 <= d < depth ==> Tier(byDepth, d) == Tier(older, d);
      assert Tier(byDepth, depth) == entries;
      NextSearched(nodes, ins, symbolIds, depth, visited', current', older, visited, current, entries, byDepth);
      all := all + entries;
    }
    SearchedReports(nodes, ins, symbolIds, 4, visited, current, byDepth);
    var t1, t2, t3 := Tier(byDepth, 1), Tier(byDepth, 2), Tier(byDepth, 3);
    TiersCount(nodes, ins, symbolIds, t1, t2, t3);
    forall f
      ensures f in tests <==> AffectedTest(nodes, ins, symbolIds, f)
    {
      TestsAre(nodes, ins, symbolIds, t1, t2, t3, tests, f);
    }
    forall d | d in byDepth.Keys
      ensures d in {1, 2, 3}
    {
      assert 1 <= d < 4;
    }
    var testFiles := Dedup(tests);
    var total := CountEntries(byDepth);
    report := Report(AssessRisk(|t1|, |t2|), byDepth, testFiles, total);
  }

  lemma FirstSearched(nodes: Nodes, ins: InEdges, seeds: seq<Id>)
    ensures Searched(nodes, ins, seeds, 1, (set id | id in seeds), seeds, map[])
  {
  }

  lemma SearchedReports(nodes: Nodes, ins: InEdges, seeds: seq<Id>, depth: nat, visited: set<Id>, current: seq<Id>, byDepth: map<int, seq<Entry>>)
    requires Searched(nodes, ins, seeds, depth, visited, current, byDepth)
    ensures Reports(nodes, ins, seeds, depth, byDepth)
  {
  }

  lemma Start(arcs: Arcs, seeds: seq<Id>, visited: set<Id>)
    requires forall x :: x in visited <==> x in seeds
    ensures Frontier(arcs, seeds, 0, visited, seeds)
  {
    forall x
      ensures (x in visited <==> Near(arcs, seeds, 0, x)) && (x in seeds <==> AtDistance(arcs, seeds, 0, x))
    {
      TierZero(arcs, seeds, x);
    }
  }

  /** The smallest numbers of direct and second-tier dependents that reach a level. */
  function Threshold(level: nat): set<(nat, nat)>
  {
    if level == 1 then {(2, 0), (0, 5)}
    else if level == 2 then {(5, 0), (0, 10)}
    else {(10, 0), (5, 20)}
  }

  /** Medium, high and critical are reached exactly from one of these points on. */
  lemma RiskThresholds(direct: nat, transitive: nat, level: nat)
    requires 1 <= level <= 3
    ensures Rank(AssessRisk(direct, transitive)) >= level <==>
      exists p :: p in Threshold(level) && p.0 <= direct && p.1 <= transitive
  {
    var a: (nat, nat), b: (nat, nat) :=
      if level == 1 then (2, 0) else if level == 2 then (5, 0) else (10, 0),
      if level == 1 then (0, 5) else if level == 2 then (0, 10) else (5, 20);
    assert a in Threshold(level) && b in Threshold(level);
    assert forall p :: p in Threshold(level) ==> p == a || p == b;
  }
}
