/** What cmd/gortex/daemon_snapshot.go guarantees about the graph it loads: structure for
    every stream, exact loss under damage, and the round trip with saving. */
module SnapshotTheorems {
  import opened Reachability
  import opened CodeGraph
  import opened Contracts
  import opened Snapshot

  // ---------------------------------------------------------------- every stream

  /** No edge dangles, no id is empty or an absolute path, and entries sit under their own keys. */
  ghost predicate WellFormed(nodes: map<Id, Node>, edges: map<EdgeKey, Edge>)
  {
    && WellKeyed(nodes, edges)
    && (forall id :: id in nodes ==> id != "" && id[0] != '/')
    && (forall k :: k in edges ==> k.from in nodes && k.to in nodes)
  }

  lemma LoadIsWellFormed(h: Header, rs: seq<Record>)
    ensures WellFormed(LoadedNodes(h, rs), LoadedEdges(h, rs))
  {
    hide Split;
    var s := Split(h, rs);
    var ids := LoadedNodes(h, rs).Keys;
    LoadedIdsGood(s.nodes);
    LastWinsEntries(NodesOf(s.nodes), IdOfNode);
    EdgesAreAnchored(s.edges, ids);
    LastWinsEntries(EdgesOf(s.edges, ids), KeyOf);
  }

  // ---------------------------------------------------------------- damage

  /** ds is rs with some records made undecodable and possibly cut short. */
  ghost predicate Damaged(rs: seq<Record>, ds: seq<Record>)
  {
    |ds| <= |rs| && forall i :: 0 <= i < |ds| ==> ds[i] == rs[i] || ds[i] == Garbage
  }

  ghost predicate Distinct<K(!new), V(!new)>(s: seq<V>, key: V -> K)
  {
    forall v, w :: v in s && w in s && key(v) == key(w) ==> v == w
  }

  /** With distinct keys every listed element is the entry under its key. */
  lemma DistinctEntries<K(!new), V(!new)>(s: seq<V>, key: V -> K)
    requires Distinct(s, key)
    ensures forall v :: v in s ==> key(v) in LastWins(s, key) && LastWins(s, key)[key(v)] == v
  {
    LastWinsEntries(s, key);
  }

  lemma DamagedSections(h: Header, rs: seq<Record>, ds: seq<Record>)
    requires Damaged(rs, ds)
    ensures Damaged(Split(h, rs).nodes, Split(h, ds).nodes)
    ensures Damaged(Split(h, rs).edges, Split(h, ds).edges)
  {
  }

  lemma DamagedKeeps(rs: seq<Record>, ds: seq<Record>, r: Record)
    requires Damaged(rs, ds) && r in ds && r != Garbage
    ensures r in rs
  {
    var i :| 0 <= i < |ds| && ds[i] == r;
    assert rs[i] == r;
  }

  /** Nodes after damage: exactly those of the undamaged load whose record survived. */
  lemma DamagedNodes(h: Header, rs: seq<Record>, ds: seq<Record>, id: Id)
    requires Damaged(rs, ds) && Distinct(NodesOf(Split(h, rs).nodes), IdOfNode)
    ensures id in LoadedNodes(h, ds) <==> id in LoadedNodes(h, rs) && NodeRecord(LoadedNodes(h, rs)[id]) in Split(h, ds).nodes
    ensures id in LoadedNodes(h, ds) ==> LoadedNodes(h, ds)[id] == LoadedNodes(h, rs)[id]
  {
    hide Split;
    DamagedSections(h, rs, ds);
    var before, after := Split(h, rs).nodes, Split(h, ds).nodes;
    NodesAreGood(before);
    NodesAreGood(after);
    DistinctEntries(NodesOf(before), IdOfNode);
    LastWinsEntries(NodesOf(before), IdOfNode);
    LastWinsEntries(NodesOf(after), IdOfNode);
    if id in LoadedNodes(h, ds) {
      var n := LoadedNodes(h, ds)[id];
      DamagedKeeps(before, after, NodeRecord(n));
      assert n in NodesOf(before);
    }
    if id in LoadedNodes(h, rs) && NodeRecord(LoadedNodes(h, rs)[id]) in after {
      assert LoadedNodes(h, rs)[id] in NodesOf(after);
    }
  }

  /** Some record of the section carries the edge key. */
  ghost predicate Carried(rs: seq<Record>, k: EdgeKey)
  {
    exists e :: EdgeRecord(e) in rs && KeyOf(e) == k
  }

  lemma LoadedEdgeKeys(h: Header, rs: seq<Record>, k: EdgeKey)
    ensures k in LoadedEdges(h, rs) <==> Carried(Split(h, rs).edges, k) && k.from in LoadedNodes(h, rs) && k.to in LoadedNodes(h, rs)
  {
    hide Split, LoadedNodes;
    var s, ids := Split(h, rs).edges, LoadedNodes(h, rs).Keys;
    EdgesAreAnchored(s, ids);
    LastWinsEntries(EdgesOf(s, ids), KeyOf);
  }

  /** Edges after damage: exactly those of the undamaged load with a surviving record and two
      surviving ends. */
  lemma DamagedEdges(h: Header, rs: seq<Record>, ds: seq<Record>, k: EdgeKey)
    requires Damaged(rs, ds) && Distinct(NodesOf(Split(h, rs).nodes), IdOfNode)
    ensures k in LoadedEdges(h, ds) <==>
      k in LoadedEdges(h, rs) && Carried(Split(h, ds).edges, k) && k.from in LoadedNodes(h, ds) && k.to in LoadedNodes(h, ds)
  {
    hide Split, LoadedNodes, LoadedEdges;
    LoadedEdgeKeys(h, rs, k);
    LoadedEdgeKeys(h, ds, k);
    DamagedNodes(h, rs, ds, k.from);
    DamagedNodes(h, rs, ds, k.to);
    DamagedSections(h, rs, ds);
    if Carried(Split(h, ds).edges, k) {
      var e :| EdgeRecord(e) in Split(h, ds).edges && KeyOf(e) == k;
      DamagedKeeps(Split(h, rs).edges, Split(h, ds).edges, EdgeRecord(e));
    }
  }

  ghost predicate DistinctEdgeRecords(rs: seq<Record>)
  {
    forall e, f :: EdgeRecord(e) in rs && EdgeRecord(f) in rs && KeyOf(e) == KeyOf(f) ==> e == f
  }

  /** ... and unchanged, if no edge was recorded twice. */
  lemma DamagedEdgeContents(h: Header, rs: seq<Record>, ds: seq<Record>, k: EdgeKey)
    requires Damaged(rs, ds) && Distinct(NodesOf(Split(h, rs).nodes), IdOfNode)
    requires DistinctEdgeRecords(Split(h, rs).edges) && k in LoadedEdges(h, ds)
    ensures k in LoadedEdges(h, rs) && LoadedEdges(h, ds)[k] == LoadedEdges(h, rs)[k]
  {
    hide Split, LoadedNodes;
    DamagedEdges(h, rs, ds, k);
    DamagedSections(h, rs, ds);
    var before, after := Split(h, rs).edges, Split(h, ds).edges;
    EdgesAreAnchored(before, LoadedNodes(h, rs).Keys);
    EdgesAreAnchored(after, LoadedNodes(h, ds).Keys);
    LastWinsEntries(EdgesOf(before, LoadedNodes(h, rs).Keys), KeyOf);
    LastWinsEntries(EdgesOf(after, LoadedNodes(h, ds).Keys), KeyOf);
    DamagedKeeps(before, after, EdgeRecord(LoadedEdges(h, ds)[k]));
  }

  /** Edges count as the same exactly when they agree in these five fields. */
  lemma SameEdgeIff(e: Edge, f: Edge)
    ensures KeyOf(e) == KeyOf(f) <==>
      e.from == f.from && e.to == f.to && e.kind == f.kind && e.filePath == f.filePath && e.line == f.line
  {
  }

  // ---------------------------------------------------------------- saving and loading again

  function GoodNodes(nodes: map<Id, Node>): map<Id, Node>
  {
    map id | id in nodes && id != "" && id[0] != '/' :: nodes[id]
  }

  function AnchoredEdges(nodes: map<Id, Node>, edges: map<EdgeKey, Edge>): map<EdgeKey, Edge>
  {
    map k | k in edges && k.from in nodes && k.to in nodes :: edges[k]
  }

  lemma WrittenSections(ns: seq<Node>, es: seq<Edge>, repos: seq<Repo>, cs: seq<Contract>, version: string)
    ensures var f := Written(ns, es, repos, cs, version);
      Split(f.header, f.records) == Sections(NodeRecords(ns), EdgeRecords(es), RepoRecords(repos), ContractRecords(cs))
    ensures var f := Written(ns, es, repos, cs, version); |f.records| == Announced(f.header)
  {
    var f := Written(ns, es, repos, cs, version);
    var a, b, c := NodeRecords(ns), EdgeRecords(es), RepoRecords(repos);
    var d := ContractRecords(cs);
    assert f.records == a + (b + (c + d));
    assert f.records[..|a|] == a;
    assert f.records[|a|..|a| + |b|] == b;
    assert f.records[|a| + |b|..|a| + |b| + |c|] == c;
    assert f.records[|a| + |b| + |c|..|a| + |b| + |c| + |d|] == d;
  }

  lemma NodeRecordsHold(ns: seq<Node>, n: Node)
    ensures NodeRecord(n) in NodeRecords(ns) <==> n in ns
  {
    if n in ns {
      var i :| 0 <= i < |ns| && ns[i] == n;
      assert NodeRecords(ns)[i] == NodeRecord(n);
    }
  }

  lemma EdgeRecordsHold(es: seq<Edge>, e: Edge)
    ensures EdgeRecord(e) in EdgeRecords(es) <==> e in es
  {
    if e in es {
      var i :| 0 <= i < |es| && es[i] == e;
      assert EdgeRecords(es)[i] == EdgeRecord(e);
    }
  }

  /** Loading what was saved gives back the nodes with good ids ... */
  lemma RoundTripNodes(nodes: map<Id, Node>, ns: seq<Node>)
    requires Enumerates(ns, nodes, IdOfNode) && forall id :: id in nodes ==> nodes[id].id == id
    ensures LastWins(NodesOf(NodeRecords(ns)), IdOfNode) == GoodNodes(nodes)
  {
    var listed := NodesOf(NodeRecords(ns));
    NodesAreGood(NodeRecords(ns));
    forall n
      ensures n in listed <==> n in ns && GoodId(n.id)
    {
      NodeRecordsHold(ns, n);
    }
    hide NodesOf, NodeRecords;
    LastWinsEntries(listed, IdOfNode);
    DistinctEntries(listed, IdOfNode);
    forall id | id in GoodNodes(nodes)
      ensures id in LastWins(listed, IdOfNode) && LastWins(listed, IdOfNode)[id] == nodes[id]
    {
      assert nodes[id] in listed;
    }
  }

  /** ... and the edges with both ends among them. */
  lemma RoundTripEdges(nodes: map<Id, Node>, edges: map<EdgeKey, Edge>, es: seq<Edge>)
    requires Enumerates(es, edges, KeyOf) && forall k :: k in edges ==> KeyOf(edges[k]) == k
    ensures LastWins(EdgesOf(EdgeRecords(es), nodes.Keys), KeyOf) == AnchoredEdges(nodes, edges)
  {
    var listed := EdgesOf(EdgeRecords(es), nodes.Keys);
    EdgesAreAnchored(EdgeRecords(es), nodes.Keys);
    forall e
      ensures e in listed <==> e in es && e.from in nodes && e.to in nodes
    {
      EdgeRecordsHold(es, e);
    }
    hide EdgesOf, EdgeRecords;
    LastWinsEntries(listed, KeyOf);
    DistinctEntries(listed, KeyOf);
    forall k | k in AnchoredEdges(nodes, edges)
      ensures k in LastWins(listed, KeyOf) && LastWins(listed, KeyOf)[k] == edges[k]
    {
      assert edges[k] in listed;
    }
  }

  /** Saving and loading, in whatever order the graph was enumerated. */
  lemma SaveLoadRoundTrip(nodes: map<Id, Node>, edges: map<EdgeKey, Edge>, ns: seq<Node>, es: seq<Edge>,
                          repos: seq<Repo>, cs: seq<Contract>, version: string)
    requires WellKeyed(nodes, edges) && Enumerates(ns, nodes, IdOfNode) && Enumerates(es, edges, KeyOf)
    ensures var f := Written(ns, es, repos, cs, version);
      LoadedNodes(f.header, f.records) == GoodNodes(nodes) && LoadedEdges(f.header, f.records) == AnchoredEdges(GoodNodes(nodes), edges)
  {
    WrittenSections(ns, es, repos, cs, version);
    hide Written, Split;
    RoundTripNodes(nodes, ns);
    RoundTripEdges(GoodNodes(nodes), edges, es);
  }

  /** A second save and load changes nothing, in whatever order either save writes. */
  lemma SecondRoundTrip(nodes: map<Id, Node>, edges: map<EdgeKey, Edge>, ns: seq<Node>, es: seq<Edge>, repos: seq<Repo>,
                        cs: seq<Contract>, version: string, f: File,
                        ns': seq<Node>, es': seq<Edge>, repos': seq<Repo>, cs': seq<Contract>, version': string, f': File)
    requires WellKeyed(nodes, edges) && Saves(nodes, edges, ns, es) && f == Written(ns, es, repos, cs, version)
    requires Saves(LoadedNodes(f.header, f.records), LoadedEdges(f.header, f.records), ns', es')
    requires f' == Written(ns', es', repos', cs', version')
    ensures LoadedNodes(f'.header, f'.records) == LoadedNodes(f.header, f.records)
    ensures LoadedEdges(f'.header, f'.records) == LoadedEdges(f.header, f.records)
  {
    hide LoadedNodes, LoadedEdges, Written, Enumerates;
    SaveLoadRoundTrip(nodes, edges, ns, es, repos, cs, version);
    var n, e := GoodNodes(nodes), AnchoredEdges(GoodNodes(nodes), edges);
    assert WellKeyed(n, e) && GoodNodes(n) == n && AnchoredEdges(GoodNodes(n), e) == e;
    SaveLoadRoundTrip(n, e, ns', es', repos', cs', version');
  }

  /** The load is flagged exactly when something without a key was saved. */
  lemma SavedIsCompleteIff(ns: seq<Node>, es: seq<Edge>, repos: seq<Repo>, cs: seq<Contract>, version: string)
    ensures var f := Written(ns, es, repos, cs, version);
      Incomplete(f.header, f.records) <==>
        || (exists n :: n in ns && n.id == "")
        || (exists r :: r in repos && r.repoPrefix == "")
        || (exists c :: c in cs && c.id == "")
  {
    WrittenSections(ns, es, repos, cs, version);
    hide Written, Split;
    BadNodes(ns);
    BadRepos(repos);
    BadContracts(cs);
    assert !SomeBad(EdgeRecords(es), BadEdge);
  }

  lemma BadNodes(ns: seq<Node>)
    ensures SomeBad(NodeRecords(ns), BadNode) <==> exists n :: n in ns && n.id == ""
  {
    if n :| n in ns && n.id == "" {
      var i :| 0 <= i < |ns| && ns[i] == n;
      assert BadNode(NodeRecords(ns)[i]);
    }
  }

  lemma BadRepos(repos: seq<Repo>)
    ensures SomeBad(RepoRecords(repos), BadRepo) <==> exists r :: r in repos && r.repoPrefix == ""
  {
    if r :| r in repos && r.repoPrefix == "" {
      var i :| 0 <= i < |repos| && repos[i] == r;
      assert BadRepo(RepoRecords(repos)[i]);
    }
  }

  lemma BadContracts(cs: seq<Contract>)
    ensures SomeBad(ContractRecords(cs), BadContract) <==> exists c :: c in cs && c.id == ""
  {
    if c :| c in cs && c.id == "" {
      var i :| 0 <= i < |cs| && cs[i] == c;
      assert BadContract(ContractRecords(cs)[i]);
    }
  }

  /** Shutting down and starting again with the real methods. */
  method SaveThenLoad(g: Graph, repos: seq<Repo>, cs: seq<Contract>, version: string) returns (h: Graph, r: LoadResult)
    requires g.Valid()
    ensures fresh(h) && r.loaded && h.nodes == GoodNodes(g.nodes) && h.edges == AnchoredEdges(GoodNodes(g.nodes), g.edges)
    ensures r.repos == ReposOf(RepoRecords(repos)) && r.contracts == ContractsOf(ContractRecords(cs))
    ensures r.partial <==>
      || "" in g.nodes
      || (exists x :: x in repos && x.repoPrefix == "")
      || (exists c :: c in cs && c.id == "")
  {
    hide LoadedNodes, LoadedEdges, GoodNodes, AnchoredEdges, Incomplete, ReposOf, ContractsOf;
    var file := SaveSnapshot(g, repos, cs, version);
    ghost var ns, es :| Saves(g.nodes, g.edges, ns, es) && file == Written(ns, es, repos, cs, version);
    SaveLoadRoundTrip(g.nodes, g.edges, ns, es, repos, cs, version);
    WrittenSections(ns, es, repos, cs, version);
    SavedIsCompleteIff(ns, es, repos, cs, version);
    h := new Graph();
    r := LoadSnapshot(h, file);
    assert (exists n: Node :: n in ns && n.id == "") <==> "" in g.nodes by {
      if "" in g.nodes {
        assert g.nodes[""] in ns;
      }
    }
  }
}
