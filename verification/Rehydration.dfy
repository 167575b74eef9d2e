/** cmd/gortex/daemon_state.go: contract registries saved with the snapshot and rebuilt on the
    next start (collectSnapshotContracts, and the rehydration loop of warmupDaemonState). */
module Rehydration {
  import opened Basics
  import opened Contracts
  import opened Registry
  import opened CodeGraph
  import opened Snapshot
  import opened SnapshotTheorems

  // ---------------------------------------------------------------- collecting

  /** What one repo contributes: the contracts of its registry, or nothing if it has none. */
  ghost predicate Contributes(part: seq<Contract>, registries: map<string, Registry>, prefix: string)
    reads registries.Values
  {
    if prefix in registries then Represents(part, registries[prefix].flat) else part == []
  }

  /** The list consists of one part for each repo, in order. */
  ghost predicate Collected(out: seq<Contract>, parts: seq<seq<Contract>>, prefixes: seq<string>, registries: map<string, Registry>)
    reads registries.Values
  {
    && out == Concat(parts) && |parts| == |prefixes|
    && forall i :: 0 <= i < |prefixes| ==> Contributes(parts[i], registries, prefixes[i])
  }

  method CollectContracts(prefixes: seq<string>, registries: map<string, Registry>) returns (out: seq<Contract>)
    requires forall p :: p in registries ==> registries[p].Valid()
    ensures exists parts :: Collected(out, parts, prefixes, registries)
  {
    hide Indexes, Represents;
    out := [];
    ghost var parts: seq<seq<Contract>> := [];
    for i := 0 to |prefixes|
      invariant out == Concat(parts) && |parts| == i
      invariant forall j :: 0 <= j < i ==> Contributes(parts[j], registries, prefixes[j])
    {
      var part: seq<Contract> := [];
      if prefixes[i] in registries {
        part := registries[prefixes[i]].All();
      }
      assert (parts + [part])[..i] == parts;
      out, parts := out + part, parts + [part];
    }
    assert Collected(out, parts, prefixes, registries);
  }

  // ---------------------------------------------------------------- loading

  /** The contracts that a load hands to a repo. */
  function ForRepo(prefix: string): Contract -> bool
  {
    (c: Contract) => c.id != "" && c.repoPrefix == prefix
  }

  lemma {:induction false} LoadGroups(cs: seq<Contract>, prefix: string)
    ensures Grouped(ContractsOf(ContractRecords(cs)), prefix) == Filter(ForRepo(prefix), cs)
    decreases |cs|
  {
    if cs != [] {
      var front := cs[..|cs| - 1];
      assert ContractRecords(cs)[..|cs| - 1] == ContractRecords(front);
      LoadGroups(front, prefix);
    }
  }

  /** Part k holds only contracts of its own prefix, with ids, and no other part has any of these. */
  ghost predicate OwnPart(parts: seq<seq<Contract>>, prefix: string, k: nat)
  {
    && k < |parts|
    && (forall c :: c in parts[k] ==> c.id != "" && c.repoPrefix == prefix)
    && (forall i, c :: 0 <= i < |parts| && i != k && c in parts[i] ==> c.id == "" || c.repoPrefix != prefix)
  }

  lemma {:induction false} NoPart(parts: seq<seq<Contract>>, prefix: string)
    requires forall i, c :: 0 <= i < |parts| && c in parts[i] ==> c.id == "" || c.repoPrefix != prefix
    ensures Filter(ForRepo(prefix), Concat(parts)) == []
    decreases |parts|
  {
    if parts != [] {
      var n := |parts| - 1;
      NoPart(parts[..n], prefix);
      FilterAppend(ForRepo(prefix), Concat(parts[..n]), parts[n]);
      NoneLeft(ForRepo(prefix), parts[n]);
    }
  }

  /** Whatever the other repos hold, a repo's part of the saved list comes back whole. */
  lemma {:induction false} PartOfConcat(parts: seq<seq<Contract>>, prefix: string, k: nat)
    requires OwnPart(parts, prefix, k)
    ensures Filter(ForRepo(prefix), Concat(parts)) == parts[k]
    decreases |parts|
  {
    var n := |parts| - 1;
    FilterAppend(ForRepo(prefix), Concat(parts[..n]), parts[n]);
    if n == k {
      NoPart(parts[..n], prefix);
      FilterItems(ForRepo(prefix), parts[n]);
      assert forall c :: c in parts[n] ==> ForRepo(prefix)(c);
    } else {
      PartOfConcat(parts[..n], prefix, k);
      NoneLeft(ForRepo(prefix), parts[n]);
    }
  }

  // ---------------------------------------------------------------- rebuilding

  /** A registry built from the loaded contracts. */
  method BuildRegistry(cs: seq<Contract>) returns (reg: Registry)
    ensures fresh(reg) && reg.Valid() && reg.flat == cs
  {
    hide Indexes;
    reg := new Registry();
    for i := 0 to |cs|
      invariant fresh(reg) && reg.Valid() && reg.flat == cs[..i]
    {
      assert cs[..i + 1] == cs[..i] + [cs[i]];
      reg.Add(cs[i]);
    }
    assert cs[..|cs|] == cs;
  }

  /** Only repos without a registry are given one, and only from a non-empty list. */
  method Rehydrate(prefixes: seq<string>, registries: map<string, Registry>, loaded: map<string, seq<Contract>>)
    returns (after: map<string, Registry>)
    requires forall p :: p in registries ==> registries[p].Valid()
    ensures forall p :: p in registries ==> p in after && after[p] == registries[p]
    ensures forall p :: p in after <==> p in registries || (p in prefixes && Grouped(loaded, p) != [])
    ensures forall p :: p in after ==> after[p].Valid()
    ensures forall p :: p in after && p !in registries ==> after[p].flat == Grouped(loaded, p)
  {
    hide Indexes;
    after := registries;
    for i := 0 to |prefixes|
      invariant forall p :: p in registries ==> p in after && after[p] == registries[p]
      invariant forall p :: p in after <==> p in registries || (p in prefixes[..i] && Grouped(loaded, p) != [])
      invariant forall p :: p in after ==> after[p].Valid()
      invariant forall p :: p in after && p !in registries ==> after[p].flat == Grouped(loaded, p)
    {
      var p := prefixes[i];
      assert prefixes[..i + 1] == prefixes[..i] + [p];
      if p in after || Grouped(loaded, p) == [] {
        continue;
      }
      var reg := BuildRegistry(Grouped(loaded, p));
      after := after[p := reg];
    }
    assert prefixes[..|prefixes|] == prefixes;
  }

  // ---------------------------------------------------------------- a whole restart

  /** The restart preserves a repo's contracts: whatever list All gave before (part k), the list it
      gives for the registry rebuilt from the saved stream holds the same contracts. */
  lemma RestartKeepsContracts(parts: seq<seq<Contract>>, prefix: string, k: nat, before: seq<Contract>, after: seq<Contract>)
    requires OwnPart(parts, prefix, k)
    requires Represents(parts[k], before)
    requires Represents(after, Grouped(ContractsOf(ContractRecords(Concat(parts))), prefix))
    ensures forall c :: c in after <==> c in parts[k]
  {
    hide ContractsOf, ContractRecords, Concat, DedupKey;
    LoadGroups(Concat(parts), prefix);
    PartOfConcat(parts, prefix, k);
    AllReturnsEverything(after, parts[k]);
  }

  /** The k-th repo has a registry with contracts of its own prefix only, all with ids, and no
      other repo's registry has contracts of that prefix with ids. */
  ghost predicate OwnRepo(prefixes: seq<string>, registries: map<string, Registry>, k: nat)
    reads registries.Values
  {
    && k < |prefixes| && prefixes[k] in registries
    && (forall c :: c in registries[prefixes[k]].flat ==> c.id != "" && c.repoPrefix == prefixes[k])
    && (forall i, c :: 0 <= i < |prefixes| && i != k && prefixes[i] in registries && c in registries[prefixes[i]].flat ==>
      c.id == "" || c.repoPrefix != prefixes[k])
  }

  lemma OwnRepoPart(prefixes: seq<string>, registries: map<string, Registry>, k: nat, out: seq<Contract>, parts: seq<seq<Contract>>)
    requires OwnRepo(prefixes, registries, k) && Collected(out, parts, prefixes, registries)
    ensures OwnPart(parts, prefixes[k], k) && Represents(parts[k], registries[prefixes[k]].flat)
    ensures parts[k] == [] <==> registries[prefixes[k]].flat == []
  {
    hide DistinctKeys, KeysOf, DedupKey;
    forall i, c | 0 <= i < |parts| && c in parts[i]
      ensures prefixes[i] in registries && c in registries[prefixes[i]].flat
    {
      assert Contributes(parts[i], registries, prefixes[i]);
    }
    assert Contributes(parts[k], registries, prefixes[k]);
    SameEmptiness(parts[k], registries[prefixes[k]].flat);
  }

  lemma SameEmptiness(out: seq<Contract>, flat: seq<Contract>)
    requires Represents(out, flat)
    ensures out == [] <==> flat == []
  {
    if flat != [] {
      assert DedupKey(flat[0]) in KeysOf(out);
    }
    if out != [] {
      assert out[0] in flat;
    }
  }

  /** Shutdown and start: the registries are collected and saved with the graph, the stream is
      loaded, and registries are rebuilt for the repos that were not extracted anew. Each of these
      that keeps to its own prefix gets back a list that All can have given before, and nothing if
      it was empty. */
  method Restart(g: Graph, repos: seq<Repo>, version: string, prefixes: seq<string>, registries: map<string, Registry>,
                 extracted: map<string, Registry>)
    returns (h: Graph, r: LoadResult, after: map<string, Registry>)
    requires g.Valid() && forall p :: p in registries ==> registries[p].Valid()
    requires forall p :: p in extracted ==> extracted[p].Valid()
    ensures h.nodes == GoodNodes(g.nodes) && h.edges == AnchoredEdges(GoodNodes(g.nodes), g.edges)
    ensures forall p :: p in after ==> after[p].Valid()
    ensures forall p :: p in extracted ==> p in after && after[p] == extracted[p]
    ensures forall k :: 0 <= k < |prefixes| && prefixes[k] in registries && prefixes[k] !in extracted && OwnRepo(prefixes, registries, k) ==>
      && (prefixes[k] in after <==> registries[prefixes[k]].flat != [])
      && (prefixes[k] in after ==> Represents(after[prefixes[k]].flat, registries[prefixes[k]].flat))
  {
    hide Indexes, GoodNodes, AnchoredEdges, OwnRepo, Represents, Collected, ContractsOf, ContractRecords, Concat, Filter;
    var cs := CollectContracts(prefixes, registries);
    ghost var parts :| Collected(cs, parts, prefixes, registries);
    h, r := SaveThenLoad(g, repos, cs, version);
    after := Rehydrate(prefixes, extracted, r.contracts);
    forall k | 0 <= k < |prefixes| && prefixes[k] in registries && prefixes[k] !in extracted && OwnRepo(prefixes, registries, k)
      ensures prefixes[k] in after <==> registries[prefixes[k]].flat != []
      ensures prefixes[k] in after ==> Represents(after[prefixes[k]].flat, registries[prefixes[k]].flat)
    {
      OwnRepoPart(prefixes, registries, k, cs, parts);
      LoadGroups(cs, prefixes[k]);
      PartOfConcat(parts, prefixes[k], k);
      PrefixListed(prefixes, registries, k, cs, parts);
    }
  }

  lemma PrefixListed(prefixes: seq<string>, registries: map<string, Registry>, k: nat, out: seq<Contract>, parts: seq<seq<Contract>>)
    requires OwnRepo(prefixes, registries, k) && Collected(out, parts, prefixes, registries)
    ensures k < |prefixes| && prefixes[k] in prefixes && out == Concat(parts)
  {
  }

  /** What All gives after such a restart is the same set that was collected before. */
  lemma AllAfterRestart(before: seq<Contract>, after: seq<Contract>, out: seq<Contract>)
    requires Represents(after, before) && Represents(out, after)
    ensures Represents(out, before) && forall c :: c in out <==> c in after
  {
    hide DedupKey, Sampled;
    AllReturnsEverything(out, after);
    RepresentsTwice(out, after, before);
  }
}
