/** internal/contracts/registry.go: four indexes over the contracts of all repositories,
    proved to be views of one flat list. */
module Registry {
  import opened Contracts

  type Index = map<string, seq<Contract>>

  function Get(m: Index, k: string): seq<Contract>
  {
    if k in m then m[k] else []
  }

  function IdOf(c: Contract): string { c.id }
  function RepoOf(c: Contract): string { c.repoPrefix }
  function SymbolOf(c: Contract): string { c.symbolId }
  function FileOf(c: Contract): string { c.filePath }

  function KeyIs(key: Contract -> string, k: string): Contract -> bool
  {
    c => key(c) == k
  }

  function KeyIsNot(key: Contract -> string, k: string): Contract -> bool
  {
    c => key(c) != k
  }

  /** Each lookup returns, in order, exactly the contracts of the flat list with that key. With
      `bare` set, contracts whose key is empty are not indexed. */
  ghost predicate Indexes(m: Index, flat: seq<Contract>, key: Contract -> string, bare: bool)
  {
    forall k {:trigger Get(m, k)} :: Get(m, k) == if bare && k == "" then [] else Filter(KeyIs(key, k), flat)
  }

  // ---------------------------------------------------------------- adding

  function Put(m: Index, k: string, c: Contract): Index
  {
    m[k := Get(m, k) + [c]]
  }

  lemma PutIndexes(m: Index, flat: seq<Contract>, key: Contract -> string, bare: bool, c: Contract)
    requires Indexes(m, flat, key, bare)
    ensures Indexes(if bare && key(c) == "" then m else Put(m, key(c), c), flat + [c], key, bare)
  {
    var m' := if bare && key(c) == "" then m else Put(m, key(c), c);
    forall k
      ensures Get(m', k) == if bare && k == "" then [] else Filter(KeyIs(key, k), flat + [c])
    {
      assert Get(m, k) == if bare && k == "" then [] else Filter(KeyIs(key, k), flat);
      assert (flat + [c])[..|flat|] == flat;
    }
  }

  // ---------------------------------------------------------------- removing

  /** removeContract's notion of the same entry. */
  predicate SameEntry(c: Contract, t: Contract)
  {
    c.filePath == t.filePath && c.symbolId == t.symbolId && c.role == t.role && c.id == t.id && c.repoPrefix == t.repoPrefix
  }

  function NotEntry(t: Contract): Contract -> bool
  {
    c => !SameEntry(c, t)
  }

  ghost predicate Differs(c: Contract, t: Contract)
  {
    || c.filePath != t.filePath || c.symbolId != t.symbolId || c.role != t.role
    || c.id != t.id || c.repoPrefix != t.repoPrefix
  }

  /** removeContract: keeps the other entries, in order. */
  method RemoveContract(list: seq<Contract>, target: Contract) returns (out: seq<Contract>)
    ensures out == Filter(NotEntry(target), list)
    ensures forall c :: c in out <==> c in list && Differs(c, target)
  {
    out := [];
    for i := 0 to |list|
      invariant out == Filter(NotEntry(target), list[..i])
    {
      assert list[..i + 1][..i] == list[..i];
      var c := list[i];
      if SameEntry(c, target) {
        continue;
      }
      out := out + [c];
    }
    assert list[..|list|] == list;
    FilterItems(NotEntry(target), list);
  }

  /** No entry of `targets` is the same as c. */
  function Spared(targets: seq<Contract>): Contract -> bool
  {
    c => forall t :: t in targets ==> !SameEntry(c, t)
  }

  ghost predicate FollowsEntry(key: Contract -> string)
  {
    forall c, t {:trigger SameEntry(c, t)} :: SameEntry(c, t) ==> key(c) == key(t)
  }

  ghost predicate Keyed(m: Index, key: Contract -> string)
  {
    forall k, c :: k in m && c in m[k] ==> key(c) == k
  }

  ghost predicate Purged(m: Index, m': Index, targets: seq<Contract>)
  {
    forall k {:trigger Get(m', k)} :: Get(m', k) == Filter(Spared(targets), Get(m, k))
  }

  lemma PurgeNext(m: Index, m': Index, m'': Index, key: Contract -> string, targets: seq<Contract>, t: Contract)
    requires Keyed(m, key) && FollowsEntry(key) && Purged(m, m', targets)
    requires forall k {:trigger Get(m'', k)} :: Get(m'', k) == if k == key(t) then Filter(NotEntry(t), Get(m', k)) else Get(m', k)
    ensures Purged(m, m'', targets + [t])
  {
    forall k
      ensures Get(m'', k) == Filter(Spared(targets + [t]), Get(m, k))
    {
      var list := Get(m, k);
      assert Get(m', k) == Filter(Spared(targets), list);
      forall c | c in list
        ensures Spared(targets + [t])(c) == (NotEntry(t)(c) && Spared(targets)(c))
      {
      }
      if k == key(t) {
        FilterTwice(NotEntry(t), Spared(targets), Spared(targets + [t]), list);
      } else {
        forall c | c in list
          ensures Spared(targets + [t])(c) == Spared(targets)(c)
        {
          assert key(c) == k;
          assert SameEntry(c, t) ==> key(c) == key(t);
        }
        FilterCong(Spared(targets + [t]), Spared(targets), list);
      }
    }
  }

  lemma PurgeNone(m: Index)
    ensures Purged(m, m, [])
  {
    forall k
      ensures Get(m, k) == Filter(Spared([]), Get(m, k))
    {
      FilterItems(Spared([]), Get(m, k));
    }
  }

  /** One target leaves the list of its key; with `prune` set, an emptied list is deleted. */
  method PurgeOne(m: Index, t: Contract, k: string, prune: bool) returns (m': Index)
    ensures forall j {:trigger Get(m', j)} :: Get(m', j) == if j == k then Filter(NotEntry(t), Get(m, j)) else Get(m, j)
  {
    var kept := RemoveContract(Get(m, k), t);
    m' := m[k := kept];
    if prune && kept == [] {
      m' := m' - {k};
    }
  }

  /** The removal loops of ReplaceByID and EvictRepo: every target leaves the list of its key. With
      `bare` set, targets with an empty key are skipped. */
  method Purge(m: Index, targets: seq<Contract>, key: Contract -> string, bare: bool, prune: bool) returns (m': Index)
    requires Keyed(m, key) && FollowsEntry(key) && (bare ==> Get(m, "") == [])
    ensures Purged(m, m', targets)
  {
    hide Keyed, FollowsEntry;
    m' := m;
    PurgeNone(m);
    for i := 0 to |targets|
      invariant Purged(m, m', targets[..i])
    {
      var t := targets[i];
      ghost var before := m';
      if !bare || key(t) != "" {
        m' := PurgeOne(m', t, key(t), prune);
      } else {
        assert Get(before, "") == Filter(Spared(targets[..i]), Get(m, ""));
      }
      PurgeNext(m, before, m', key, targets[..i], t);
      assert targets[..i + 1] == targets[..i] + [t];
    }
    assert targets[..|targets|] == targets;
  }

  // ---------------------------------------------------------------- from purged indexes to the flat list

  lemma IndexKeyed(m: Index, flat: seq<Contract>, key: Contract -> string, bare: bool)
    requires Indexes(m, flat, key, bare)
    ensures Keyed(m, key) && (bare ==> Get(m, "") == [])
  {
    forall k, c | k in m && c in m[k]
      ensures key(c) == k
    {
      assert m[k] == Get(m, k);
      FilterItems(KeyIs(key, k), flat);
    }
  }

  /** Purging an index of all contracts of the flat list that fail p leaves an index of those that pass. */
  lemma PurgedIndexes(m: Index, m': Index, targets: seq<Contract>, flat: seq<Contract>, key: Contract -> string, bare: bool, p: Contract -> bool)
    requires Indexes(m, flat, key, bare) && Purged(m, m', targets)
    requires forall c :: c in flat ==> Spared(targets)(c) == p(c)
    ensures Indexes(m', Filter(p, flat), key, bare)
  {
    forall k
      ensures Get(m', k) == if bare && k == "" then [] else Filter(KeyIs(key, k), Filter(p, flat))
    {
      assert Get(m', k) == Filter(Spared(targets), Get(m, k));
      assert Get(m, k) == if bare && k == "" then [] else Filter(KeyIs(key, k), flat);
      if !(bare && k == "") {
        var both := (c: Contract) => key(c) == k && p(c);
        FilterTwice(Spared(targets), KeyIs(key, k), both, flat);
        FilterTwice(KeyIs(key, k), p, both, flat);
      }
    }
  }

  /** The targets being all contracts of the flat list whose key is r, exactly those are hit. */
  lemma TargetsHit(flat: seq<Contract>, key: Contract -> string, r: string, targets: seq<Contract>)
    requires FollowsEntry(key) && targets == Filter(KeyIs(key, r), flat)
    ensures forall c :: c in flat ==> Spared(targets)(c) == KeyIsNot(key, r)(c)
  {
    FilterItems(KeyIs(key, r), flat);
    forall c | c in flat
      ensures Spared(targets)(c) == KeyIsNot(key, r)(c)
    {
      if key(c) == r {
        assert c in targets && SameEntry(c, c);
      }
    }
  }

  // ---------------------------------------------------------------- the registry

  class Registry {
    var byID: Index
    var byRepo: Index
    var bySymbol: Index
    var byFilePath: Index
    ghost var flat: seq<Contract>

    /** All four indexes are views of one flat list. */
    ghost predicate Valid()
      reads this
    {
      && Indexes(byID, flat, IdOf, false)
      && Indexes(byRepo, flat, RepoOf, false)
      && Indexes(bySymbol, flat, SymbolOf, true)
      && Indexes(byFilePath, flat, FileOf, false)
    }

    constructor ()
      ensures Valid() && flat == []
    {
      byID, byRepo, bySymbol, byFilePath, flat := map[], map[], map[], map[], [];
    }

    method Add(c: Contract)
      requires Valid()
      modifies this
      ensures Valid() && flat == old(flat) + [c]
    {
      hide Indexes, Put;
      PutIndexes(byID, flat, IdOf, false, c);
      PutIndexes(byRepo, flat, RepoOf, false, c);
      PutIndexes(bySymbol, flat, SymbolOf, true, c);
      PutIndexes(byFilePath, flat, FileOf, false, c);
      byID := Put(byID, c.id, c);
      byRepo := Put(byRepo, c.repoPrefix, c);
      if c.symbolId != "" {
        bySymbol := Put(bySymbol, c.symbolId, c);
      }
      byFilePath := Put(byFilePath, c.filePath, c);
      flat := flat + [c];
    }

    /** Adds every contract with its repo prefix overwritten; returns the list as it now stands. */
    method AddAll(contracts: seq<Contract>, repoPrefix: string) returns (stamped: seq<Contract>)
      requires Valid()
      modifies this
      ensures Valid() && flat == old(flat) + stamped
      ensures |stamped| == |contracts|
      ensures forall i :: 0 <= i < |contracts| ==> stamped[i] == contracts[i].(repoPrefix := repoPrefix)
    {
      hide Indexes;
      stamped := [];
      for i := 0 to |contracts|
        invariant Valid() && flat == old(flat) + stamped && |stamped| == i
        invariant forall j :: 0 <= j < i ==> stamped[j] == contracts[j].(repoPrefix := repoPrefix)
      {
        var c := contracts[i].(repoPrefix := repoPrefix);
        Add(c);
        stamped := stamped + [c];
      }
    }

    method Clear()
      modifies this
      ensures Valid() && flat == []
    {
      byID, byRepo, bySymbol, byFilePath, flat := map[], map[], map[], map[], [];
    }

    method ByID(id: string) returns (out: seq<Contract>)
      requires Valid()
      ensures out == Filter(KeyIs(IdOf, id), flat)
    {
      out := Get(byID, id);
    }

    method ByRepo(repoPrefix: string) returns (out: seq<Contract>)
      requires Valid()
      ensures out == Filter(KeyIs(RepoOf, repoPrefix), flat)
    {
      out := Get(byRepo, repoPrefix);
    }

    /** Contracts without a symbol are not indexed by symbol. */
    method BySymbol(symbolId: string) returns (out: seq<Contract>)
      requires Valid()
      ensures out == if symbolId == "" then [] else Filter(KeyIs(SymbolOf, symbolId), flat)
    {
      out := Get(bySymbol, symbolId);
    }

    method ByFile(filePath: string) returns (out: seq<Contract>)
      requires Valid()
      ensures out == Filter(KeyIs(FileOf, filePath), flat)
    {
      out := Get(byFilePath, filePath);
    }

    /** Removes exactly the repo's contracts and tells how many there were. */
    method EvictRepo(repoPrefix: string) returns (removed: int)
      requires Valid()
      modifies this
      ensures Valid() && flat == Filter(KeyIsNot(RepoOf, repoPrefix), old(flat))
      ensures removed == |old(flat)| - |flat|
    {
      hide Filter, Purged, Keyed, Spared;
      ghost var p := KeyIsNot(RepoOf, repoPrefix);
      var contracts := Get(byRepo, repoPrefix);
      FilterSplit(p, KeyIs(RepoOf, repoPrefix), flat);
      if |contracts| == 0 {
        NothingToEvict(flat, repoPrefix);
        return 0;
      }
      TargetsHit(flat, RepoOf, repoPrefix, contracts);
      IndexKeyed(byID, flat, IdOf, false);
      var ids := Purge(byID, contracts, IdOf, false, true);
      PurgedIndexes(byID, ids, contracts, flat, IdOf, false, p);
      IndexKeyed(bySymbol, flat, SymbolOf, true);
      var symbols := Purge(bySymbol, contracts, SymbolOf, true, true);
      PurgedIndexes(bySymbol, symbols, contracts, flat, SymbolOf, true, p);
      IndexKeyed(byFilePath, flat, FileOf, false);
      var files := Purge(byFilePath, contracts, FileOf, false, true);
      PurgedIndexes(byFilePath, files, contracts, flat, FileOf, false, p);
      DropRepo(byRepo, flat, repoPrefix);
      byID, bySymbol, byFilePath := ids, symbols, files;
      byRepo := byRepo - {repoPrefix};
      removed := |contracts|;
      flat := Filter(p, flat);
    }

    /** Swaps the contracts recorded under an id. The indexes stay views of one list exactly when
        every new entry carries that id; the other three always do. */
    method ReplaceByID(id: string, list: seq<Contract>)
      requires Valid()
      modifies this
      ensures flat == Filter(KeyIsNot(IdOf, id), old(flat)) + list
      ensures Indexes(byRepo, flat, RepoOf, false) && Indexes(bySymbol, flat, SymbolOf, true) && Indexes(byFilePath, flat, FileOf, false)
      ensures Get(byID, id) == list
      ensures Valid() <==> forall c :: c in list ==> c.id == id
    {
      hide Indexes;
      RemoveById(id);
      ghost var base, others := flat, byID;
      byID := byID[id := []];
      for i := 0 to |list|
        invariant flat == base + list[..i]
        invariant byID == others[id := list[..i]]
        invariant Indexes(byRepo, flat, RepoOf, false) && Indexes(bySymbol, flat, SymbolOf, true) && Indexes(byFilePath, flat, FileOf, false)
      {
        assert list[..i + 1] == list[..i] + [list[i]];
        byID := Put(byID, id, list[i]);
        PutSecondary(list[i]);
      }
      assert list[..|list|] == list;
      NoneWithId(old(flat), id);
      ReplacedIndex(others, base, id, list);
    }

    /** Adds to every index but the one by id. */
    method PutSecondary(c: Contract)
      requires Indexes(byRepo, flat, RepoOf, false) && Indexes(bySymbol, flat, SymbolOf, true) && Indexes(byFilePath, flat, FileOf, false)
      modifies this`byRepo, this`bySymbol, this`byFilePath, this`flat
      ensures flat == old(flat) + [c]
      ensures Indexes(byRepo, flat, RepoOf, false) && Indexes(bySymbol, flat, SymbolOf, true) && Indexes(byFilePath, flat, FileOf, false)
    {
      hide Indexes;
      PutIndexes(byRepo, flat, RepoOf, false, c);
      PutIndexes(bySymbol, flat, SymbolOf, true, c);
      PutIndexes(byFilePath, flat, FileOf, false, c);
      byRepo := Put(byRepo, c.repoPrefix, c);
      if c.symbolId != "" {
        bySymbol := Put(bySymbol, c.symbolId, c);
      }
      byFilePath := Put(byFilePath, c.filePath, c);
      flat := flat + [c];
    }

    /** The first half of ReplaceByID: the old entries leave the secondary indexes. */
    method RemoveById(id: string)
      requires Valid()
      modifies this`byRepo, this`bySymbol, this`byFilePath, this`flat
      ensures flat == Filter(KeyIsNot(IdOf, id), old(flat))
      ensures Indexes(byRepo, flat, RepoOf, false) && Indexes(bySymbol, flat, SymbolOf, true) && Indexes(byFilePath, flat, FileOf, false)
      ensures Indexes(byID, old(flat), IdOf, false)
      ensures forall k :: k != id ==> Get(byID, k) == Filter(KeyIs(IdOf, k), flat)
    {
      ghost var p := KeyIsNot(IdOf, id);
      var olds := Get(byID, id);
      TargetsHit(flat, IdOf, id, olds);
      IndexKeyed(byRepo, flat, RepoOf, false);
      var repos := Purge(byRepo, olds, RepoOf, false, false);
      PurgedIndexes(byRepo, repos, olds, flat, RepoOf, false, p);
      IndexKeyed(bySymbol, flat, SymbolOf, true);
      var symbols := Purge(bySymbol, olds, SymbolOf, true, false);
      PurgedIndexes(bySymbol, symbols, olds, flat, SymbolOf, true, p);
      IndexKeyed(byFilePath, flat, FileOf, false);
      var files := Purge(byFilePath, olds, FileOf, false, false);
      PurgedIndexes(byFilePath, files, olds, flat, FileOf, false, p);
      OtherIds(byID, flat, id);
      byRepo, bySymbol, byFilePath := repos, symbols, files;
      flat := Filter(p, flat);
    }

    /** Every recorded id once, in any order; an id whose list was replaced by nothing is still listed. */
    method AllIDs() returns (ids: seq<string>)
      ensures forall i, j :: 0 <= i < j < |ids| ==> ids[i] != ids[j]
      ensures forall k :: k in ids <==> k in byID
    {
      ids := [];
      var remaining := byID.Keys;
      while remaining != {}
        invariant remaining <= byID.Keys
        invariant forall i, j :: 0 <= i < j < |ids| ==> ids[i] != ids[j]
        invariant forall k :: k in ids <==> k in byID && k !in remaining
        decreases remaining
      {
        var k :| k in remaining;
        remaining := remaining - {k};
        ids := ids + [k];
      }
    }

    /** One contract for every dedup key that occurs, no two for the same key, and of the contracts
        of one id that share a key the first recorded. */
    method All() returns (out: seq<Contract>)
      requires Valid()
      ensures Represents(out, flat)
    {
      hide DedupKey, DistinctKeys, KeysOf, Sampled, Picked;
      var ids := AllIDs();
      out := [];
      var seen: set<string> := {};
      ghost var pos: seq<nat> := [];
      NoKeys();
      NoSamples(flat);
      for i := 0 to |ids|
        invariant DistinctKeys(out) && KeysOf(out) == seen && Sampled(out, flat, pos)
        invariant forall c :: c in out ==> c in flat && c.id in ids[..i]
        invariant forall c :: c in flat && c.id in ids[..i] ==> DedupKey(c) in seen
      {
        var contracts := ByID(ids[i]);
        WithId(flat, ids[i]);
        ghost var at := FilterAt(ids[i], flat);
        assert ids[..i + 1] == ids[..i] + [ids[i]];
        assert ids[i] !in ids[..i];
        out, seen, pos := Collect(contracts, out, seen, flat, ids[i], at, pos);
      }
      AllSeen(byID, flat, ids);
    }
  }

  /** Appends the contracts whose dedup key has not been seen, in order. */
  method Collect(contracts: seq<Contract>, out: seq<Contract>, seen: set<string>,
                 ghost flat: seq<Contract>, ghost id: string, ghost at: seq<nat>, ghost pos: seq<nat>)
    returns (out': seq<Contract>, seen': set<string>, ghost pos': seq<nat>)
    requires DistinctKeys(out) && KeysOf(out) == seen && Sampled(out, flat, pos)
    requires Picked(contracts, flat, id, at) && |at| == |contracts| && forall c :: c in out ==> c.id != id
    ensures DistinctKeys(out') && KeysOf(out') == seen' && seen <= seen' && Sampled(out', flat, pos')
    ensures forall c :: c in out' ==> c in out || c in contracts
    ensures forall c :: c in contracts ==> DedupKey(c) in seen'
  {
    hide DedupKey, DistinctKeys, KeysOf, Sampled, Picked;
    out', seen', pos' := out, seen, pos;
    NonePending(out, pos, flat, id, at);
    for j := 0 to |contracts|
      invariant DistinctKeys(out') && KeysOf(out') == seen' && seen <= seen' && Sampled(out', flat, pos')
      invariant forall c :: c in out' ==> c in out || c in contracts
      invariant forall i :: 0 <= i < j ==> DedupKey(contracts[i]) in seen'
      invariant Pending(out', pos', id, at, j)
    {
      var c := contracts[j];
      if DedupKey(c) !in seen' {
        OneMoreKey(out', c);
        SampleNext(out', flat, pos', contracts, id, at, j);
        seen' := seen' + {DedupKey(c)};
        pos' := pos' + [at[j]];
        out' := out' + [c];
      } else {
        SampleSkip(out', flat, pos', contracts, id, at, j);
      }
    }
  }

  // ---------------------------------------------------------------- which entries All picks

  /** No earlier entry of the same id has the same dedup key. */
  ghost predicate Earliest(flat: seq<Contract>, i: nat)
  {
    i < |flat| && forall j :: 0 <= j < i && flat[j].id == flat[i].id ==> DedupKey(flat[j]) != DedupKey(flat[i])
  }

  /** pos tells where the listed contracts stand: each is the first of its id and key, and those of
      one id keep their order. */
  ghost predicate Sampled(out: seq<Contract>, flat: seq<Contract>, pos: seq<nat>)
  {
    && |pos| == |out|
    && (forall k :: 0 <= k < |out| ==> Earliest(flat, pos[k]) && out[k] == flat[pos[k]])
    && (forall k, l :: 0 <= k < l < |out| && out[k].id == out[l].id ==> pos[k] < pos[l])
  }

  /** The contracts of one id with their positions in the flat list. */
  ghost predicate Picked(contracts: seq<Contract>, flat: seq<Contract>, id: string, at: seq<nat>)
  {
    && |at| == |contracts|
    && (forall k :: 0 <= k < |at| ==> at[k] < |flat| && contracts[k] == flat[at[k]] && contracts[k].id == id)
    && (forall k, l :: 0 <= k < l < |at| ==> at[k] < at[l])
    && (forall i :: 0 <= i < |flat| && flat[i].id == id ==> i in at)
  }

  lemma PickedNext(contracts: seq<Contract>, s: seq<Contract>, id: string, at: seq<nat>, c: Contract)
    requires Picked(contracts, s, id, at)
    ensures c.id == id ==> Picked(contracts + [c], s + [c], id, at + [|s|])
    ensures c.id != id ==> Picked(contracts, s + [c], id, at)
  {
    var more := s + [c];
    assert (at + [|s|])[|at|] == |s|;
    forall i | 0 <= i < |s| && more[i].id == id
      ensures i in at
    {
      assert more[i] == s[i];
    }
  }

  lemma {:induction false} FilterAt(id: string, s: seq<Contract>) returns (at: seq<nat>)
    ensures Picked(Filter(KeyIs(IdOf, id), s), s, id, at) && |at| == |Filter(KeyIs(IdOf, id), s)|
    decreases |s|
  {
    if s == [] {
      at := [];
    } else {
      var n := |s| - 1;
      var front := FilterAt(id, s[..n]);
      PickedNext(Filter(KeyIs(IdOf, id), s[..n]), s[..n], id, front, s[n]);
      assert s[..n] + [s[n]] == s;
      assert KeyIs(IdOf, id)(s[n]) == (s[n].id == id);
      hide Picked;
      at := if s[n].id == id then front + [n] else front;
    }
  }

  /** What has been listed of this id stands before what is still to come. */
  ghost predicate Pending(out: seq<Contract>, pos: seq<nat>, id: string, at: seq<nat>, j: nat)
  {
    |pos| == |out| && forall k, m :: 0 <= k < |out| && out[k].id == id && j <= m < |at| ==> pos[k] < at[m]
  }

  lemma NonePending(out: seq<Contract>, pos: seq<nat>, flat: seq<Contract>, id: string, at: seq<nat>)
    requires Sampled(out, flat, pos) && forall c :: c in out ==> c.id != id
    ensures Pending(out, pos, id, at, 0)
  {
  }

  lemma SampleNext(out: seq<Contract>, flat: seq<Contract>, pos: seq<nat>, contracts: seq<Contract>, id: string, at: seq<nat>, j: nat)
    requires Sampled(out, flat, pos) && Picked(contracts, flat, id, at) && j < |contracts| && Pending(out, pos, id, at, j)
    requires forall i :: 0 <= i < j ==> DedupKey(contracts[i]) in KeysOf(out)
    requires DedupKey(contracts[j]) !in KeysOf(out)
    ensures Sampled(out + [contracts[j]], flat, pos + [at[j]]) && Pending(out + [contracts[j]], pos + [at[j]], id, at, j + 1)
  {
    hide DedupKey, KeysOf;
    forall i | 0 <= i < at[j] && flat[i].id == flat[at[j]].id
      ensures DedupKey(flat[i]) != DedupKey(flat[at[j]])
    {
      assert i in at;
      var m :| 0 <= m < |at| && at[m] == i;
      assert m < j && contracts[m] == flat[i];
    }
  }

  lemma SampleSkip(out: seq<Contract>, flat: seq<Contract>, pos: seq<nat>, contracts: seq<Contract>, id: string, at: seq<nat>, j: nat)
    requires Pending(out, pos, id, at, j)
    ensures Pending(out, pos, id, at, j + 1)
  {
  }

  lemma NoSamples(flat: seq<Contract>)
    ensures Sampled([], flat, [])
  {
  }

  lemma NoKeys()
    ensures DistinctKeys([]) && KeysOf([]) == {}
  {
  }

  lemma WithId(flat: seq<Contract>, id: string)
    ensures forall c :: c in Filter(KeyIs(IdOf, id), flat) <==> c in flat && c.id == id
  {
    FilterItems(KeyIs(IdOf, id), flat);
  }

  /** All's dedup key: four fields joined by bars. */
  function DedupKey(c: Contract): string
  {
    c.id + "|" + c.filePath + "|" + c.symbolId + "|" + c.role
  }

  ghost function KeysOf(s: seq<Contract>): set<string>
  {
    set c | c in s :: DedupKey(c)
  }

  ghost predicate DistinctKeys(s: seq<Contract>)
  {
    forall i, j :: 0 <= i < j < |s| ==> DedupKey(s[i]) != DedupKey(s[j])
  }

  ghost predicate Represents(out: seq<Contract>, flat: seq<Contract>)
  {
    && DistinctKeys(out)
    && (forall c :: c in out ==> c in flat)
    && (forall c :: c in flat ==> DedupKey(c) in KeysOf(out))
    && (exists pos :: Sampled(out, flat, pos))
  }

  lemma SampledTwice(out: seq<Contract>, mid: seq<Contract>, flat: seq<Contract>, p: seq<nat>, q: seq<nat>)
    requires Sampled(mid, flat, p) && Sampled(out, mid, q)
    ensures exists pos :: Sampled(out, flat, pos)
  {
    hide DedupKey;
    forall k | 0 <= k < |out|
      ensures q[k] < |mid| && out[k] == mid[q[k]]
    {
      assert Earliest(mid, q[k]);
    }
    var pos := seq(|out|, k requires 0 <= k < |out| => p[q[k]]);
    hide Earliest;
    assert Sampled(out, flat, pos);
  }

  /** Picking from what was picked is picking. */
  lemma RepresentsTwice(out: seq<Contract>, mid: seq<Contract>, flat: seq<Contract>)
    requires Represents(mid, flat) && Represents(out, mid)
    ensures Represents(out, flat)
  {
    hide DedupKey, Sampled;
    var p :| Sampled(mid, flat, p);
    var q :| Sampled(out, mid, q);
    SampledTwice(out, mid, flat, p, q);
    hide DistinctKeys;
    forall c | c in flat
      ensures DedupKey(c) in KeysOf(out)
    {
      var d :| d in mid && DedupKey(d) == DedupKey(c);
    }
  }

  /** Of two recorded contracts with one id and one dedup key, never the later is listed. */
  lemma FirstWins(out: seq<Contract>, flat: seq<Contract>, i: nat, j: nat)
    requires Represents(out, flat) && i < j < |flat| && flat[i].id == flat[j].id && DedupKey(flat[i]) == DedupKey(flat[j])
    requires flat[i] != flat[j] && forall k :: 0 <= k < |flat| && flat[k] == flat[j] ==> i < k
    ensures flat[j] !in out
  {
    hide DedupKey;
    var pos :| Sampled(out, flat, pos);
    forall k | 0 <= k < |out|
      ensures out[k] != flat[j]
    {
      assert Earliest(flat, pos[k]);
    }
  }

  lemma OneMoreKey(s: seq<Contract>, c: Contract)
    requires DistinctKeys(s) && DedupKey(c) !in KeysOf(s)
    ensures DistinctKeys(s + [c]) && KeysOf(s + [c]) == KeysOf(s) + {DedupKey(c)}
  {
    hide DedupKey;
    assert forall d :: d in s + [c] <==> d in s || d == c;
    forall i | 0 <= i < |s|
      ensures DedupKey(s[i]) != DedupKey(c)
    {
      assert s[i] in s;
    }
  }

  lemma AllSeen(byID: Index, flat: seq<Contract>, ids: seq<string>)
    requires Indexes(byID, flat, IdOf, false) && forall k :: k in ids <==> k in byID
    ensures forall c :: c in flat ==> c.id in ids[..|ids|]
  {
    assert ids[..|ids|] == ids;
    forall c | c in flat
      ensures c.id in byID
    {
      WithId(flat, c.id);
      assert Get(byID, c.id) == Filter(KeyIs(IdOf, c.id), flat);
    }
  }

  /** If no two contracts share a dedup key, All returns every contract. */
  lemma {:induction false} AllReturnsEverything(out: seq<Contract>, flat: seq<Contract>)
    requires Represents(out, flat) && DistinctKeys(flat)
    ensures forall c :: c in out <==> c in flat
  {
    hide DedupKey;
    forall c | c in flat
      ensures c in out
    {
      var d :| d in out && DedupKey(d) == DedupKey(c);
      var i :| 0 <= i < |flat| && flat[i] == c;
      var j :| 0 <= j < |flat| && flat[j] == d;
      assert i == j;
    }
  }

  /** No two different contracts of the list share a dedup key. */
  ghost predicate KeysTell(flat: seq<Contract>)
  {
    forall c, d :: c in flat && d in flat && DedupKey(c) == DedupKey(d) ==> c == d
  }

  /** All loses nothing exactly when dedup keys tell the recorded contracts apart. */
  lemma AllCompleteIff(out: seq<Contract>, flat: seq<Contract>)
    requires Represents(out, flat)
    ensures (forall c :: c in out <==> c in flat) <==> KeysTell(flat)
  {
    hide DedupKey;
    if KeysTell(flat) {
      forall c | c in flat
        ensures c in out
      {
        var d :| d in out && DedupKey(d) == DedupKey(c);
      }
    }
    if forall c :: c in out <==> c in flat {
      forall c, d | c in flat && d in flat && DedupKey(c) == DedupKey(d)
        ensures c == d
      {
        var i :| 0 <= i < |out| && out[i] == c;
        var j :| 0 <= j < |out| && out[j] == d;
        assert i == j;
      }
    }
  }

  /** The key leaves out the repo, the type, the line, the meta data and the confidence: without
      any bar, two contracts that differ in their repo alone share a key, and the later is lost. */
  lemma DedupIgnoresRepo(c: Contract, repo: string)
    requires repo != c.repoPrefix
    ensures var d := c.(repoPrefix := repo);
      DedupKey(c) == DedupKey(d) && forall out :: Represents(out, [c, d]) ==> out == [c]
  {
    var d := c.(repoPrefix := repo);
    hide DedupKey;
    assert [c, d][0] == c && [c, d][1] == d;
    assert DedupKey(c) == DedupKey(d) by {
      SameKey(c, repo);
    }
    forall out | Represents(out, [c, d])
      ensures out == [c]
    {
      FirstWins(out, [c, d], 0, 1);
      assert forall x :: x in out ==> x == c;
      var x :| x in out && DedupKey(x) == DedupKey(c);
      assert out[0] == c && out[|out| - 1] == c;
      assert DedupKey(out[0]) == DedupKey(out[|out| - 1]);
    }
  }

  lemma SameKey(c: Contract, repo: string)
    ensures DedupKey(c) == DedupKey(c.(repoPrefix := repo))
  {
  }

  /** Joining by a bar can be undone when the first parts hold no bar. */
  lemma JoinInjective(a: string, x: string, b: string, y: string)
    requires '|' !in a && '|' !in b && a + "|" + x == b + "|" + y
    ensures a == b && x == y
  {
    var s, t := a + "|" + x, b + "|" + y;
    assert s[|a|] == '|' && t[|b|] == '|';
    assert s[..|a|] == a && t[..|b|] == b;
    assert s[|a| + 1..] == x && t[|b| + 1..] == y;
  }

  /** Without bars in the first three fields, equal dedup keys mean equal fields ... */
  lemma DedupKeyExact(c: Contract, d: Contract)
    requires '|' !in c.id && '|' !in c.filePath && '|' !in c.symbolId
    requires '|' !in d.id && '|' !in d.filePath && '|' !in d.symbolId
    ensures DedupKey(c) == DedupKey(d) <==>
      c.id == d.id && c.filePath == d.filePath && c.symbolId == d.symbolId && c.role == d.role
  {
    if DedupKey(c) == DedupKey(d) {
      var c2, d2 := c.symbolId + "|" + c.role, d.symbolId + "|" + d.role;
      var c1, d1 := c.filePath + "|" + c2, d.filePath + "|" + d2;
      assert DedupKey(c) == c.id + "|" + c1 && DedupKey(d) == d.id + "|" + d1;
      JoinInjective(c.id, c1, d.id, d1);
      JoinInjective(c.filePath, c2, d.filePath, d2);
      JoinInjective(c.symbolId, c.role, d.symbolId, d.role);
    }
  }

  /** ... with bars they need not: two contracts with different ids can share a key, and All then
      returns only one of them. */
  lemma DedupKeyCollision() returns (c: Contract, d: Contract)
    ensures c.id != d.id && DedupKey(c) == DedupKey(d)
    ensures forall out :: Represents(out, [c, d]) ==> c !in out || d !in out
  {
    c := Contract("a|b", "http", "provider", "s", "f", 1, "", map[], 1.0);
    d := Contract("a", "http", "provider", "s", "b|f", 1, "", map[], 1.0);
    assert c.id[1] == '|';
    var whole := "a|b|f|s|provider";
    assert DedupKey(c) == whole && DedupKey(d) == whole;
    assert [c, d][0] == c && [c, d][1] == d;
    forall out | Represents(out, [c, d])
      ensures c !in out || d !in out
    {
      AllCompleteIff(out, [c, d]);
    }
  }

  lemma NoneWithId(flat: seq<Contract>, id: string)
    ensures forall c :: c in Filter(KeyIsNot(IdOf, id), flat) ==> c.id != id
  {
    FilterItems(KeyIsNot(IdOf, id), flat);
  }

  lemma OtherIds(m: Index, flat: seq<Contract>, id: string)
    requires Indexes(m, flat, IdOf, false)
    ensures forall k :: k != id ==> Get(m, k) == Filter(KeyIs(IdOf, k), Filter(KeyIsNot(IdOf, id), flat))
  {
    forall k | k != id
      ensures Get(m, k) == Filter(KeyIs(IdOf, k), Filter(KeyIsNot(IdOf, id), flat))
    {
      assert Get(m, k) == Filter(KeyIs(IdOf, k), flat);
      FilterTwice(KeyIs(IdOf, k), KeyIsNot(IdOf, id), KeyIs(IdOf, k), flat);
    }
  }

  /** The id index after a replacement is a view of the flat list exactly when the entries carry the id. */
  lemma ReplacedIndex(others: Index, base: seq<Contract>, id: string, list: seq<Contract>)
    requires forall k :: k != id ==> Get(others, k) == Filter(KeyIs(IdOf, k), base)
    requires forall c :: c in base ==> c.id != id
    ensures Indexes(others[id := list], base + list, IdOf, false) <==> forall c :: c in list ==> c.id == id
  {
    if Indexes(others[id := list], base + list, IdOf, false) {
      assert Get(others[id := list], id) == Filter(KeyIs(IdOf, id), base + list);
      WithId(base + list, id);
    }
    if forall c :: c in list ==> c.id == id {
      forall k
        ensures Get(others[id := list], k) == Filter(KeyIs(IdOf, k), base + list)
      {
        ReplacedAt(others, base, id, list, k);
      }
    }
  }

  lemma ReplacedAt(others: Index, base: seq<Contract>, id: string, list: seq<Contract>, k: string)
    requires k != id ==> Get(others, k) == Filter(KeyIs(IdOf, k), base)
    requires (forall c :: c in base ==> c.id != id) && forall c :: c in list ==> c.id == id
    ensures Get(others[id := list], k) == Filter(KeyIs(IdOf, k), base + list)
  {
    FilterAppend(KeyIs(IdOf, k), base, list);
    if k != id {
      NoneLeft(KeyIs(IdOf, k), list);
    } else {
      NoneLeft(KeyIs(IdOf, id), base);
      FilterItems(KeyIs(IdOf, id), list);
    }
  }

  lemma NothingToEvict(flat: seq<Contract>, r: string)
    requires Filter(KeyIs(RepoOf, r), flat) == []
    ensures Filter(KeyIsNot(RepoOf, r), flat) == flat
  {
    FilterItems(KeyIs(RepoOf, r), flat);
    FilterItems(KeyIsNot(RepoOf, r), flat);
    forall c | c in flat
      ensures KeyIsNot(RepoOf, r)(c)
    {
      assert c !in Filter(KeyIs(RepoOf, r), flat);
    }
  }

  lemma DropRepo(m: Index, flat: seq<Contract>, r: string)
    requires Indexes(m, flat, RepoOf, false)
    ensures Indexes(m - {r}, Filter(KeyIsNot(RepoOf, r), flat), RepoOf, false)
  {
    forall k
      ensures Get(m - {r}, k) == Filter(KeyIs(RepoOf, k), Filter(KeyIsNot(RepoOf, r), flat))
    {
      var both := (c: Contract) => RepoOf(c) == k && RepoOf(c) != r;
      FilterTwice(KeyIs(RepoOf, k), KeyIsNot(RepoOf, r), both, flat);
      if k == r {
        FilterItems(both, flat);
        NoneLeft(both, flat);
      } else {
        FilterCong(both, KeyIs(RepoOf, k), flat);
        assert Get(m, k) == Filter(KeyIs(RepoOf, k), flat);
      }
    }
  }

  lemma NoneLeft(p: Contract -> bool, s: seq<Contract>)
    requires forall c :: c in s ==> !p(c)
    ensures Filter(p, s) == []
  {
    FilterItems(p, s);
    assert forall c :: c !in Filter(p, s);
  }

  // ---------------------------------------------------------------- every sequence of operations

  datatype Op =
    | AddOp(c: Contract)
    | AddAllOp(contracts: seq<Contract>, repoPrefix: string)
    | ReplaceOp(id: string, list: seq<Contract>)
    | EvictOp(prefix: string)
    | ClearOp

  function Stamp(contracts: seq<Contract>, repoPrefix: string): seq<Contract>
  {
    seq(|contracts|, i requires 0 <= i < |contracts| => contracts[i].(repoPrefix := repoPrefix))
  }

  /** What an operation does to the flat list. */
  function Applied(flat: seq<Contract>, op: Op): seq<Contract>
  {
    match op
    case AddOp(c) => flat + [c]
    case AddAllOp(contracts, repoPrefix) => flat + Stamp(contracts, repoPrefix)
    case ReplaceOp(id, list) => Filter(KeyIsNot(IdOf, id), flat) + list
    case EvictOp(prefix) => Filter(KeyIsNot(RepoOf, prefix), flat)
    case ClearOp => []
  }

  function AppliedAll(flat: seq<Contract>, ops: seq<Op>): seq<Contract>
  {
    if ops == [] then flat else Applied(AppliedAll(flat, ops[..|ops| - 1]), ops[|ops| - 1])
  }

  /** A replacement list must carry the id it is recorded under. */
  ghost predicate Proper(op: Op)
  {
    op.ReplaceOp? ==> forall c :: c in op.list ==> c.id == op.id
  }

  /** After any sequence of operations the four indexes are views of the flat list that the
      operations, read as list operations, produce. */
  method Execute(ops: seq<Op>) returns (r: Registry)
    requires forall i :: 0 <= i < |ops| ==> Proper(ops[i])
    ensures r.Valid() && r.flat == AppliedAll([], ops)
  {
    r := new Registry();
    for i := 0 to |ops|
      invariant r.Valid() && r.flat == AppliedAll([], ops[..i])
      invariant fresh(r)
    {
      hide Indexes;
      assert ops[..i + 1][..i] == ops[..i];
      match ops[i] {
        case AddOp(c) => r.Add(c);
        case AddAllOp(contracts, repoPrefix) =>
          var stamped := r.AddAll(contracts, repoPrefix);
          assert stamped == Stamp(contracts, repoPrefix);
        case ReplaceOp(id, list) =>
          assert Proper(ops[i]);
          r.ReplaceByID(id, list);
        case EvictOp(prefix) => var _ := r.EvictRepo(prefix);
        case ClearOp => r.Clear();
      }
    }
    assert ops[..|ops|] == ops;
  }
}
