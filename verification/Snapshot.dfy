/** cmd/gortex/daemon_snapshot.go: the record stream of a snapshot, saved and loaded. Encoding
    and compression are left out; a stream is the list of records a decoder would meet, some of
    them undecodable, and its end is the end of the list. */
module Snapshot {
  import opened Reachability
  import opened CodeGraph
  import opened Contracts

  // ---------------------------------------------------------------- the graph that is persisted

  datatype EdgeKey = EdgeKey(from: Id, to: Id, kind: EdgeKind, filePath: string, line: int)

  function KeyOf(e: Edge): EdgeKey
  {
    EdgeKey(e.from, e.to, e.kind, e.filePath, e.line)
  }

  function IdOfNode(n: Node): Id
  {
    n.id
  }

  /** internal/graph/graph.go: nodes by id, edges by logical identity; a later write replaces. */
  class Graph {
    var nodes: map<Id, Node>
    var edges: map<EdgeKey, Edge>

    constructor ()
      ensures nodes == map[] && edges == map[]
    {
      nodes, edges := map[], map[];
    }

    ghost predicate Valid()
      reads this
    {
      WellKeyed(nodes, edges)
    }

    method AddNode(n: Node)
      modifies this`nodes
      ensures nodes == old(nodes)[n.id := n]
    {
      nodes := nodes[n.id := n];
    }

    method AddEdge(e: Edge)
      modifies this`edges
      ensures edges == old(edges)[KeyOf(e) := e]
    {
      edges := edges[KeyOf(e) := e];
    }

    /** Every node once, in any order. */
    method AllNodes() returns (ns: seq<Node>)
      requires Valid()
      ensures Enumerates(ns, nodes, IdOfNode)
    {
      ns := [];
      var remaining := nodes.Keys;
      while remaining != {}
        invariant remaining <= nodes.Keys
        invariant forall n :: n in ns <==> n.id in nodes && n.id !in remaining && nodes[n.id] == n
        invariant forall i, j :: 0 <= i < j < |ns| ==> ns[i] != ns[j]
        decreases remaining
      {
        var id :| id in remaining;
        remaining := remaining - {id};
        ns := ns + [nodes[id]];
      }
    }

    /** Every edge once, in any order. */
    method AllEdges() returns (es: seq<Edge>)
      requires Valid()
      ensures Enumerates(es, edges, KeyOf)
    {
      es := [];
      var remaining := edges.Keys;
      while remaining != {}
        invariant remaining <= edges.Keys
        invariant forall e :: e in es <==> KeyOf(e) in edges && KeyOf(e) !in remaining && edges[KeyOf(e)] == e
        invariant forall i, j :: 0 <= i < j < |es| ==> es[i] != es[j]
        decreases remaining
      {
        var k :| k in remaining;
        remaining := remaining - {k};
        es := es + [edges[k]];
      }
    }
  }

  /** s lists exactly the values of m, each under its own key, and none twice. */
  ghost predicate Enumerates<K(!new), V(!new)>(s: seq<V>, m: map<K, V>, key: V -> K)
  {
    && (forall v :: v in s <==> key(v) in m && m[key(v)] == v)
    && (forall i, j :: 0 <= i < j < |s| ==> s[i] != s[j])
  }

  ghost predicate WellKeyed(nodes: map<Id, Node>, edges: map<EdgeKey, Edge>)
  {
    && (forall id :: id in nodes ==> nodes[id].id == id)
    && (forall k :: k in edges ==> KeyOf(edges[k]) == k)
  }

  // ---------------------------------------------------------------- records and streams

  datatype Repo = Repo(repoPrefix: string, rootPath: string, fileMtimes: map<string, int>)

  datatype Record =
    | NodeRecord(node: Node)
    | EdgeRecord(edge: Edge)
    | RepoRecord(repo: Repo)
    | ContractRecord(contract: Contract)
    | Garbage

  const SCHEMA_VERSION := 2

  datatype Header = Header(schemaVersion: int, version: string, nodeCount: int, edgeCount: int, repoCount: int, contractCount: int)

  datatype File = NoFile | Undecodable | Stream(header: Header, records: seq<Record>)

  datatype LoadResult = LoadResult(loaded: bool, partial: bool, repos: map<string, Repo>, contracts: map<string, seq<Contract>>)

  /** An id left over from indexing that wrote absolute paths. */
  predicate IsStaleAbsPathId(id: Id)
  {
    "/" <= id
  }

  predicate GoodId(id: Id)
  {
    id != "" && !IsStaleAbsPathId(id)
  }

  // ---------------------------------------------------------------- what a section of records says

  function NodesOf(rs: seq<Record>): seq<Node>
  {
    if rs == [] then []
    else
      var front, last := NodesOf(rs[..|rs| - 1]), rs[|rs| - 1];
      if last.NodeRecord? && GoodId(last.node.id) then front + [last.node] else front
  }

  function EdgesOf(rs: seq<Record>, ids: set<Id>): seq<Edge>
  {
    if rs == [] then []
    else
      var front, last := EdgesOf(rs[..|rs| - 1], ids), rs[|rs| - 1];
      if last.EdgeRecord? && last.edge.from in ids && last.edge.to in ids then front + [last.edge] else front
  }

  function ReposOf(rs: seq<Record>): map<string, Repo>
  {
    if rs == [] then map[]
    else
      var front, last := ReposOf(rs[..|rs| - 1]), rs[|rs| - 1];
      if last.RepoRecord? && last.repo.repoPrefix != "" then front[last.repo.repoPrefix := last.repo] else front
  }

  function Grouped(m: map<string, seq<Contract>>, prefix: string): seq<Contract>
  {
    if prefix in m then m[prefix] else []
  }

  function ContractsOf(rs: seq<Record>): map<string, seq<Contract>>
  {
    if rs == [] then map[]
    else
      var front, last := ContractsOf(rs[..|rs| - 1]), rs[|rs| - 1];
      if last.ContractRecord? && last.contract.id != ""
      then front[last.contract.repoPrefix := Grouped(front, last.contract.repoPrefix) + [last.contract]]
      else front
  }

  /** Later entries with the same key replace earlier ones. */
  function LastWins<K, V>(s: seq<V>, key: V -> K): map<K, V>
  {
    if s == [] then map[] else LastWins(s[..|s| - 1], key)[key(s[|s| - 1]) := s[|s| - 1]]
  }

  predicate BadNode(r: Record) { !r.NodeRecord? || r.node.id == "" }
  predicate BadEdge(r: Record) { !r.EdgeRecord? }
  predicate BadRepo(r: Record) { !r.RepoRecord? || r.repo.repoPrefix == "" }
  predicate BadContract(r: Record) { !r.ContractRecord? || r.contract.id == "" }

  ghost predicate SomeBad(rs: seq<Record>, bad: Record -> bool)
  {
    exists i :: 0 <= i < |rs| && bad(rs[i])
  }

  // ---------------------------------------------------------------- the four sections of a stream

  function Count(n: int): nat
  {
    if n < 0 then 0 else n
  }

  /** Where the section of n records after position start ends, the stream being len long. */
  function SectionEnd(start: nat, n: int, len: nat): nat
    requires start <= len
    ensures start <= SectionEnd(start, n, len) <= len
  {
    if start + Count(n) <= len then start + Count(n) else len
  }

  datatype Sections = Sections(nodes: seq<Record>, edges: seq<Record>, repos: seq<Record>, contracts: seq<Record>)

  function Split(h: Header, rs: seq<Record>): Sections
  {
    var a := SectionEnd(0, h.nodeCount, |rs|);
    var b := SectionEnd(a, h.edgeCount, |rs|);
    var c := SectionEnd(b, h.repoCount, |rs|);
    var d := SectionEnd(c, h.contractCount, |rs|);
    Sections(rs[..a], rs[a..b], rs[b..c], rs[c..d])
  }

  function Announced(h: Header): nat
  {
    Count(h.nodeCount) + Count(h.edgeCount) + Count(h.repoCount) + Count(h.contractCount)
  }

  function LoadedNodes(h: Header, rs: seq<Record>): map<Id, Node>
  {
    LastWins(NodesOf(Split(h, rs).nodes), IdOfNode)
  }

  function LoadedEdges(h: Header, rs: seq<Record>): map<EdgeKey, Edge>
  {
    LastWins(EdgesOf(Split(h, rs).edges, LoadedNodes(h, rs).Keys), KeyOf)
  }

  /** Exactly when something is missing: a record failed to decode, a key was empty, or the
      stream ended before the announced number of records. */
  ghost predicate Incomplete(h: Header, rs: seq<Record>)
  {
    var s := Split(h, rs);
    || SomeBad(s.nodes, BadNode) || SomeBad(s.edges, BadEdge) || SomeBad(s.repos, BadRepo) || SomeBad(s.contracts, BadContract)
    || |rs| < Announced(h)
  }

  // ---------------------------------------------------------------- loading

  lemma OneMoreRecord(rs: seq<Record>, a: nat, i: nat, bad: Record -> bool)
    requires a <= i < |rs|
    ensures rs[a..i + 1] != [] && rs[a..i + 1][..|rs[a..i + 1]| - 1] == rs[a..i] && rs[a..i + 1][|rs[a..i + 1]| - 1] == rs[i]
    ensures SomeBad(rs[a..i + 1], bad) <==> SomeBad(rs[a..i], bad) || bad(rs[i])
  {
    var more, less := rs[a..i + 1], rs[a..i];
    if SomeBad(less, bad) {
      var k :| 0 <= k < |less| && bad(less[k]);
      assert more[k] == less[k];
    }
    if SomeBad(more, bad) {
      var k :| 0 <= k < |more| && bad(more[k]);
      if k < |less| {
        assert less[k] == more[k];
      }
    }
    assert more[|more| - 1] == rs[i];
  }

  lemma LastWinsNext<K, V>(s: seq<V>, key: V -> K, v: V)
    ensures LastWins(s + [v], key) == LastWins(s, key)[key(v) := v]
  {
    assert (s + [v])[..|s|] == s;
  }

  lemma NoRecords(rs: seq<Record>, a: nat, bad: Record -> bool)
    requires a <= |rs|
    ensures rs[a..a] == [] && !SomeBad(rs[a..a], bad)
  {
  }

  lemma NextNode(rs: seq<Record>, pos: nat)
    requires pos < |rs|
    ensures var r := rs[pos];
      NodesOf(rs[0..pos + 1]) ==
      if r.NodeRecord? && GoodId(r.node.id) then NodesOf(rs[0..pos]) + [r.node] else NodesOf(rs[0..pos])
  {
    assert rs[0..pos + 1][..pos] == rs[0..pos];
  }

  lemma NextEdge(rs: seq<Record>, start: nat, pos: nat, ids: set<Id>)
    requires start <= pos < |rs|
    ensures var r := rs[pos];
      EdgesOf(rs[start..pos + 1], ids) ==
      if r.EdgeRecord? && r.edge.from in ids && r.edge.to in ids then EdgesOf(rs[start..pos], ids) + [r.edge] else EdgesOf(rs[start..pos], ids)
  {
    assert rs[start..pos + 1][..pos - start] == rs[start..pos];
  }

  lemma NextRepo(rs: seq<Record>, start: nat, pos: nat)
    requires start <= pos < |rs|
    ensures var r, front := rs[pos], ReposOf(rs[start..pos]);
      ReposOf(rs[start..pos + 1]) ==
      if r.RepoRecord? && r.repo.repoPrefix != "" then front[r.repo.repoPrefix := r.repo] else front
  {
    assert rs[start..pos + 1][..pos - start] == rs[start..pos];
  }

  lemma NextContract(rs: seq<Record>, start: nat, pos: nat)
    requires start <= pos < |rs|
    ensures var r, front := rs[pos], ContractsOf(rs[start..pos]);
      ContractsOf(rs[start..pos + 1]) ==
      if r.ContractRecord? && r.contract.id != ""
      then front[r.contract.repoPrefix := Grouped(front, r.contract.repoPrefix) + [r.contract]]
      else front
  {
    assert rs[start..pos + 1][..pos - start] == rs[start..pos];
  }

  lemma NothingLoaded(ids: set<Id>)
    ensures LastWins(NodesOf([]), IdOfNode) == map[] && LastWins(EdgesOf([], ids), KeyOf) == map[]
    ensures ReposOf([]) == map[] && ContractsOf([]) == map[]
  {
  }

  /** The node loop. */
  method LoadNodes(g: Graph, rs: seq<Record>, count: int)
    returns (pos: nat, partial: bool, truncated: bool, loaded: set<Id>, dropped: set<Id>)
    requires g.nodes == map[]
    modifies g`nodes
    ensures pos == SectionEnd(0, count, |rs|)
    ensures g.nodes == LastWins(NodesOf(rs[0..pos]), IdOfNode)
    ensures loaded == g.nodes.Keys && forall id :: id in dropped ==> IsStaleAbsPathId(id)
    ensures truncated <==> Count(count) > |rs|
    ensures partial <==> truncated || SomeBad(rs[0..pos], BadNode)
  {
    hide SomeBad, IsStaleAbsPathId, LastWins, NodesOf;
    NothingLoaded({});
    pos, partial, truncated, loaded, dropped := 0, false, false, {}, {};
    NoRecords(rs, 0, BadNode);
    while pos < count
      invariant 0 <= pos <= Count(count) && pos <= |rs| && !truncated
      invariant g.nodes == LastWins(NodesOf(rs[0..pos]), IdOfNode)
      invariant loaded == g.nodes.Keys && forall id :: id in dropped ==> IsStaleAbsPathId(id)
      invariant partial <==> SomeBad(rs[0..pos], BadNode)
    {
      if pos == |rs| {
        partial, truncated := true, true;
        return;
      }
      OneMoreRecord(rs, 0, pos, BadNode);
      NextNode(rs, pos);
      var r := rs[pos];
      if !r.NodeRecord? {
        partial := true;
      } else if r.node.id == "" {
        partial := true;
      } else if IsStaleAbsPathId(r.node.id) {
        dropped := dropped + {r.node.id};
      } else {
        LastWinsNext(NodesOf(rs[0..pos]), IdOfNode, r.node);
        g.AddNode(r.node);
        loaded := loaded + {r.node.id};
      }
      pos := pos + 1;
    }
  }

  /** The edge loop. */
  method LoadEdges(g: Graph, rs: seq<Record>, start: nat, count: int, loaded: set<Id>, dropped: set<Id>)
    returns (pos: nat, partial: bool, truncated: bool)
    requires start <= |rs| && g.edges == map[] && loaded !! dropped
    modifies g`edges
    ensures pos == SectionEnd(start, count, |rs|)
    ensures g.edges == LastWins(EdgesOf(rs[start..pos], loaded), KeyOf)
    ensures truncated <==> start + Count(count) > |rs|
    ensures partial <==> truncated || SomeBad(rs[start..pos], BadEdge)
  {
    hide SomeBad, LastWins, EdgesOf;
    NothingLoaded(loaded);
    pos, partial, truncated := start, false, false;
    NoRecords(rs, start, BadEdge);
    while pos - start < count
      invariant start <= pos <= start + Count(count) && pos <= |rs| && !truncated
      invariant g.edges == LastWins(EdgesOf(rs[start..pos], loaded), KeyOf)
      invariant partial <==> SomeBad(rs[start..pos], BadEdge)
      decreases start + count - pos
    {
      if pos == |rs| {
        partial, truncated := true, true;
        return;
      }
      OneMoreRecord(rs, start, pos, BadEdge);
      NextEdge(rs, start, pos, loaded);
      var r := rs[pos];
      if !r.EdgeRecord? {
        partial := true;
      } else if r.edge.from in dropped || r.edge.to in dropped || r.edge.from !in loaded || r.edge.to !in loaded {
      } else {
        LastWinsNext(EdgesOf(rs[start..pos], loaded), KeyOf, r.edge);
        g.AddEdge(r.edge);
      }
      pos := pos + 1;
    }
  }

  /** The repo loop. */
  method LoadRepos(rs: seq<Record>, start: nat, count: int) returns (pos: nat, partial: bool, truncated: bool, repos: map<string, Repo>)
    requires start <= |rs|
    ensures pos == SectionEnd(start, count, |rs|)
    ensures repos == ReposOf(rs[start..pos])
    ensures truncated <==> start + Count(count) > |rs|
    ensures partial <==> truncated || SomeBad(rs[start..pos], BadRepo)
  {
    hide SomeBad, ReposOf;
    NothingLoaded({});
    NoRecords(rs, start, BadRepo);
    pos, partial, truncated, repos := start, false, false, map[];
    while pos - start < count
      invariant start <= pos <= start + Count(count) && pos <= |rs| && !truncated
      invariant repos == ReposOf(rs[start..pos])
      invariant partial <==> SomeBad(rs[start..pos], BadRepo)
      decreases start + count - pos
    {
      if pos == |rs| {
        partial, truncated := true, true;
        return;
      }
      OneMoreRecord(rs, start, pos, BadRepo);
      NextRepo(rs, start, pos);
      var r := rs[pos];
      if !r.RepoRecord? || r.repo.repoPrefix == "" {
        partial := true;
      } else {
        repos := repos[r.repo.repoPrefix := r.repo];
      }
      pos := pos + 1;
    }
  }

  /** The contract loop. */
  method LoadContracts(rs: seq<Record>, start: nat, count: int)
    returns (pos: nat, partial: bool, truncated: bool, contracts: map<string, seq<Contract>>)
    requires start <= |rs|
    ensures pos == SectionEnd(start, count, |rs|)
    ensures contracts == ContractsOf(rs[start..pos])
    ensures truncated <==> start + Count(count) > |rs|
    ensures partial <==> truncated || SomeBad(rs[start..pos], BadContract)
  {
    hide SomeBad, ContractsOf;
    NothingLoaded({});
    NoRecords(rs, start, BadContract);
    pos, partial, truncated, contracts := start, false, false, map[];
    while pos - start < count
      invariant start <= pos <= start + Count(count) && pos <= |rs| && !truncated
      invariant contracts == ContractsOf(rs[start..pos])
      invariant partial <==> SomeBad(rs[start..pos], BadContract)
      decreases start + count - pos
    {
      if pos == |rs| {
        partial, truncated := true, true;
        return;
      }
      OneMoreRecord(rs, start, pos, BadContract);
      NextContract(rs, start, pos);
      var r := rs[pos];
      if !r.ContractRecord? || r.contract.id == "" {
        partial := true;
      } else {
        var prefix := r.contract.repoPrefix;
        contracts := contracts[prefix := Grouped(contracts, prefix) + [r.contract]];
      }
      pos := pos + 1;
    }
  }

  lemma {:induction false} NodesAreGood(rs: seq<Record>)
    ensures forall n :: n in NodesOf(rs) ==> GoodId(n.id) && NodeRecord(n) in rs
    ensures forall n: Node :: GoodId(n.id) && NodeRecord(n) in rs ==> n in NodesOf(rs)
    decreases |rs|
  {
    if rs != [] {
      var front, last := rs[..|rs| - 1], rs[|rs| - 1];
      assert rs == front + [last];
      NodesAreGood(front);
    }
  }

  lemma {:induction false} EdgesAreAnchored(rs: seq<Record>, ids: set<Id>)
    ensures forall e :: e in EdgesOf(rs, ids) <==> EdgeRecord(e) in rs && e.from in ids && e.to in ids
    decreases |rs|
  {
    if rs != [] {
      var front, last := rs[..|rs| - 1], rs[|rs| - 1];
      assert rs == front + [last];
      EdgesAreAnchored(front, ids);
    }
  }

  /** Every entry of the map is an element listed under its key, and every key listed has an entry. */
  lemma {:induction false} LastWinsEntries<K(!new), V(!new)>(s: seq<V>, key: V -> K)
    ensures forall k :: k in LastWins(s, key) ==> LastWins(s, key)[k] in s && key(LastWins(s, key)[k]) == k
    ensures forall v :: v in s ==> key(v) in LastWins(s, key)
    decreases |s|
  {
    if s != [] {
      var front, last := s[..|s| - 1], s[|s| - 1];
      assert s == front + [last];
      LastWinsEntries(front, key);
    }
  }

  /** Loads a file into an empty graph. */
  method LoadSnapshot(g: Graph, file: File) returns (r: LoadResult)
    requires g.nodes == map[] && g.edges == map[]
    modifies g
    ensures r.loaded <==> file.Stream? && file.header.schemaVersion == 2
    ensures !r.loaded ==> g.nodes == map[] && g.edges == map[] && r == LoadResult(false, false, map[], map[])
    ensures r.loaded ==>
      && g.nodes == LoadedNodes(file.header, file.records)
      && g.edges == LoadedEdges(file.header, file.records)
      && r.repos == ReposOf(Split(file.header, file.records).repos)
      && r.contracts == ContractsOf(Split(file.header, file.records).contracts)
      && (r.partial <==> Incomplete(file.header, file.records))
  {
    r := LoadResult(false, false, map[], map[]);
    if !file.Stream? || file.header.schemaVersion != SCHEMA_VERSION {
      return;
    }
    r := LoadStream(g, file.header, file.records);
  }

  method LoadStream(g: Graph, h: Header, rs: seq<Record>) returns (r: LoadResult)
    requires g.nodes == map[] && g.edges == map[]
    modifies g
    ensures r.loaded && g.nodes == LoadedNodes(h, rs) && g.edges == LoadedEdges(h, rs)
    ensures r.repos == ReposOf(Split(h, rs).repos) && r.contracts == ContractsOf(Split(h, rs).contracts)
    ensures r.partial <==> Incomplete(h, rs)
  {
    hide NodesOf, EdgesOf, ReposOf, ContractsOf, LastWins, SomeBad;
    Empties();
    var a, partialN, truncated, loaded, dropped := LoadNodes(g, rs, h.nodeCount);
    assert rs[0..a] == rs[..a];
    LoadedIdsGood(rs[..a]);
    if truncated {
      NothingAfter(h, rs);
      return LoadResult(true, true, map[], map[]);
    }
    var b, partialE, c, partialR, d, partialC;
    b, partialE, truncated := LoadEdges(g, rs, a, h.edgeCount, loaded, dropped);
    if truncated {
      NothingAfter(h, rs);
      return LoadResult(true, true, map[], map[]);
    }
    var repos, contracts;
    c, partialR, truncated, repos := LoadRepos(rs, b, h.repoCount);
    if truncated {
      NothingAfter(h, rs);
      return LoadResult(true, true, repos, map[]);
    }
    d, partialC, truncated, contracts := LoadContracts(rs, c, h.contractCount);
    r := LoadResult(true, partialN || partialE || partialR || partialC, repos, contracts);
  }

  lemma LoadedIdsGood(rs: seq<Record>)
    ensures forall id :: id in LastWins(NodesOf(rs), IdOfNode) ==> GoodId(id)
  {
    NodesAreGood(rs);
    LastWinsEntries(NodesOf(rs), IdOfNode);
  }

  lemma Empties()
    ensures forall ids :: EdgesOf([], ids) == []
    ensures LastWins([], KeyOf) == map[] && ReposOf([]) == map[] && ContractsOf([]) == map[]
  {
  }

  /** A section that ends with the stream leaves nothing for the later ones. */
  lemma NothingAfter(h: Header, rs: seq<Record>)
    ensures var s := Split(h, rs);
      && (Count(h.nodeCount) > |rs| ==> s.edges == [] && s.repos == [] && s.contracts == [])
      && (Count(h.nodeCount) + Count(h.edgeCount) > |rs| ==> s.repos == [] && s.contracts == [])
      && (Count(h.nodeCount) + Count(h.edgeCount) + Count(h.repoCount) > |rs| ==> s.contracts == [])
  {
  }

  // ---------------------------------------------------------------- saving

  function NodeRecords(ns: seq<Node>): seq<Record>
  {
    seq(|ns|, i requires 0 <= i < |ns| => NodeRecord(ns[i]))
  }

  function EdgeRecords(es: seq<Edge>): seq<Record>
  {
    seq(|es|, i requires 0 <= i < |es| => EdgeRecord(es[i]))
  }

  function RepoRecords(repos: seq<Repo>): seq<Record>
  {
    seq(|repos|, i requires 0 <= i < |repos| => RepoRecord(repos[i]))
  }

  function ContractRecords(cs: seq<Contract>): seq<Record>
  {
    seq(|cs|, i requires 0 <= i < |cs| => ContractRecord(cs[i]))
  }

  /** The stream written for these lists. */
  function Written(ns: seq<Node>, es: seq<Edge>, repos: seq<Repo>, cs: seq<Contract>, version: string): File
  {
    Stream(Header(SCHEMA_VERSION, version, |ns|, |es|, |repos|, |cs|),
           NodeRecords(ns) + EdgeRecords(es) + RepoRecords(repos) + ContractRecords(cs))
  }

  /** The lists hold every node and every edge once, in any order. */
  ghost predicate Saves(nodes: map<Id, Node>, edges: map<EdgeKey, Edge>, ns: seq<Node>, es: seq<Edge>)
  {
    Enumerates(ns, nodes, IdOfNode) && Enumerates(es, edges, KeyOf)
  }

  method SaveSnapshot(g: Graph, repos: seq<Repo>, cs: seq<Contract>, version: string)
    returns (file: File)
    requires g.Valid()
    ensures exists ns, es :: Saves(g.nodes, g.edges, ns, es) && file == Written(ns, es, repos, cs, version)
  {
    var nodes := g.AllNodes();
    var edges := g.AllEdges();
    assert Saves(g.nodes, g.edges, nodes, edges);
    var header := Header(SCHEMA_VERSION, version, |nodes|, |edges|, |repos|, |cs|);
    var records := [];
    for i := 0 to |nodes|
      invariant records == NodeRecords(nodes)[..i]
    {
      records := records + [NodeRecord(nodes[i])];
    }
    ghost var written := records;
    for i := 0 to |edges|
      invariant records == written + EdgeRecords(edges)[..i]
    {
      records := records + [EdgeRecord(edges[i])];
    }
    written := records;
    for i := 0 to |repos|
      invariant records == written + RepoRecords(repos)[..i]
    {
      records := records + [RepoRecord(repos[i])];
    }
    written := records;
    for i := 0 to |cs|
      invariant records == written + ContractRecords(cs)[..i]
    {
      records := records + [ContractRecord(cs[i])];
    }
    file := Stream(header, records);
  }
}
