/** internal/contracts/matcher.go: pairs the providers and consumers of each contract id. */
module Matching {
  import opened Contracts
  import opened Registry

  datatype CrossLink = CrossLink(contractId: string, provider: Contract, consumer: Contract, crossRepo: bool)

  datatype MatchResult = MatchResult(matched: seq<CrossLink>, orphanProviders: seq<Contract>, orphanConsumers: seq<Contract>)

  function Times<T(==)>(s: seq<T>, x: T): nat
  {
    multiset(s)[x]
  }

  // ---------------------------------------------------------------- what a pairing is

  ghost predicate HasRole(flat: seq<Contract>, id: string, role: string)
  {
    exists c :: c in flat && c.id == id && c.role == role
  }

  ghost predicate OrphanProvider(flat: seq<Contract>, c: Contract)
  {
    c.role == PROVIDER && !HasRole(flat, c.id, CONSUMER)
  }

  ghost predicate OrphanConsumer(flat: seq<Contract>, c: Contract)
  {
    c.role == CONSUMER && !HasRole(flat, c.id, PROVIDER)
  }

  /** The link joins a provider and a consumer of its contract and knows whether they share a repo. */
  predicate Links(l: CrossLink)
  {
    && l.provider.role == PROVIDER && l.consumer.role == CONSUMER
    && l.contractId == l.provider.id == l.consumer.id
    && l.crossRepo == (l.provider.repoPrefix != l.consumer.repoPrefix)
  }

  /** Stated over the flat list of contracts, with multiplicities and without any order: the
      orphans are the contracts without a counterpart, the links all pairs of counterparts. */
  ghost predicate Pairing(flat: seq<Contract>, r: MatchResult)
  {
    && (forall c :: Times(r.orphanProviders, c) == if OrphanProvider(flat, c) then Times(flat, c) else 0)
    && (forall c :: Times(r.orphanConsumers, c) == if OrphanConsumer(flat, c) then Times(flat, c) else 0)
    && (forall l :: Times(r.matched, l) == if Links(l) then Times(flat, l.provider) * Times(flat, l.consumer) else 0)
  }

  /** The same for the ids dealt with so far. */
  ghost predicate PairingOn(flat: seq<Contract>, ids: seq<string>, r: MatchResult)
  {
    && (forall c :: ProvidersOn(flat, ids, r.orphanProviders, c))
    && (forall c :: ConsumersOn(flat, ids, r.orphanConsumers, c))
    && (forall l :: LinksOn(flat, ids, r.matched, l))
  }

  // ---------------------------------------------------------------- counting in filtered lists

  lemma TimesAppend<T>(s: seq<T>, t: seq<T>, x: T)
    ensures Times(s + t, x) == Times(s, x) + Times(t, x)
  {
  }

  lemma {:induction false} FilterTimes(p: Contract -> bool, s: seq<Contract>, c: Contract)
    ensures Times(Filter(p, s), c) == if p(c) then Times(s, c) else 0
    decreases |s|
  {
    if s != [] {
      var front, last := s[..|s| - 1], s[|s| - 1];
      assert s == front + [last];
      FilterTimes(p, front, c);
    }
  }

  function RoleIs(role: string): Contract -> bool
  {
    (c: Contract) => c.role == role
  }

  function OfRole(flat: seq<Contract>, id: string, role: string): seq<Contract>
  {
    Filter(RoleIs(role), Filter(KeyIs(IdOf, id), flat))
  }

  lemma OfRoleTimes(flat: seq<Contract>, id: string, role: string, c: Contract)
    ensures Times(OfRole(flat, id, role), c) == if c.id == id && c.role == role then Times(flat, c) else 0
  {
    FilterTimes(RoleIs(role), Filter(KeyIs(IdOf, id), flat), c);
    FilterTimes(KeyIs(IdOf, id), flat, c);
  }

  lemma OfRoleEmpty(flat: seq<Contract>, id: string, role: string)
    ensures OfRole(flat, id, role) == [] <==> !HasRole(flat, id, role)
  {
    FilterItems(KeyIs(IdOf, id), flat);
    FilterItems(RoleIs(role), Filter(KeyIs(IdOf, id), flat));
    var found := OfRole(flat, id, role);
    assert found != [] ==> found[0] in found;
  }

  /** The switch that sorts an id's contracts by role; other roles are passed over. */
  method ByRole(items: seq<Contract>) returns (providers: seq<Contract>, consumers: seq<Contract>)
    ensures providers == Filter(RoleIs(PROVIDER), items) && consumers == Filter(RoleIs(CONSUMER), items)
  {
    providers, consumers := [], [];
    for i := 0 to |items|
      invariant providers == Filter(RoleIs(PROVIDER), items[..i])
      invariant consumers == Filter(RoleIs(CONSUMER), items[..i])
    {
      assert items[..i + 1][..i] == items[..i];
      var c := items[i];
      if c.role == PROVIDER {
        providers := providers + [c];
      } else if c.role == CONSUMER {
        consumers := consumers + [c];
      }
    }
    assert items[..|items|] == items;
  }

  // ---------------------------------------------------------------- all pairs

  function Link(id: string, p: Contract, c: Contract): CrossLink
  {
    CrossLink(id, p, c, p.repoPrefix != c.repoPrefix)
  }

  /** Each consumer with each provider. */
  function LinkRow(id: string, ps: seq<Contract>, c: Contract): seq<CrossLink>
  {
    if ps == [] then [] else LinkRow(id, ps[..|ps| - 1], c) + [Link(id, ps[|ps| - 1], c)]
  }

  function LinkGrid(id: string, ps: seq<Contract>, cs: seq<Contract>): seq<CrossLink>
  {
    if cs == [] then [] else LinkGrid(id, ps, cs[..|cs| - 1]) + LinkRow(id, ps, cs[|cs| - 1])
  }

  lemma TimesNext<T>(s: seq<T>, x: T)
    requires s != []
    ensures Times(s, x) == Times(s[..|s| - 1], x) + if s[|s| - 1] == x then 1 else 0
  {
    assert s == s[..|s| - 1] + [s[|s| - 1]];
  }

  predicate Joins(id: string, l: CrossLink)
  {
    l == Link(id, l.provider, l.consumer)
  }

  lemma {:induction false} RowTimes(id: string, ps: seq<Contract>, c: Contract, l: CrossLink)
    ensures Times(LinkRow(id, ps, c), l) == if Joins(id, l) && l.consumer == c then Times(ps, l.provider) else 0
    decreases |ps|
  {
    if ps != [] {
      var n := |ps| - 1;
      RowTimes(id, ps[..n], c, l);
      TimesNext(ps, l.provider);
      TimesAppend(LinkRow(id, ps[..n], c), [Link(id, ps[n], c)], l);
      assert Times([Link(id, ps[n], c)], l) == if Link(id, ps[n], c) == l then 1 else 0;
      hide Times;
    }
  }

  lemma OneMore(a: nat, b: nat)
    ensures a * (b + 1) == a * b + a
  {
  }

  lemma GridNext(id: string, ps: seq<Contract>, cs: seq<Contract>)
    requires cs != []
    ensures LinkGrid(id, ps, cs) == LinkGrid(id, ps, cs[..|cs| - 1]) + LinkRow(id, ps, cs[|cs| - 1])
  {
  }

  lemma {:induction false} GridTimes(id: string, ps: seq<Contract>, cs: seq<Contract>, l: CrossLink)
    ensures Times(LinkGrid(id, ps, cs), l) == if Joins(id, l) then Times(ps, l.provider) * Times(cs, l.consumer) else 0
    decreases |cs|
  {
    if cs != [] {
      var n := |cs| - 1;
      GridTimes(id, ps, cs[..n], l);
      RowTimes(id, ps, cs[n], l);
      TimesNext(cs, l.consumer);
      TimesAppend(LinkGrid(id, ps, cs[..n]), LinkRow(id, ps, cs[n]), l);
      GridNext(id, ps, cs);
      hide Times, LinkRow, LinkGrid, Joins;
      OneMore(Times(ps, l.provider), Times(cs[..n], l.consumer));
    } else {
      hide LinkRow;
      assert Times(cs, l.consumer) == 0;
    }
  }

  lemma {:induction false} RowLength(id: string, ps: seq<Contract>, c: Contract)
    ensures |LinkRow(id, ps, c)| == |ps|
    decreases |ps|
  {
    if ps != [] {
      RowLength(id, ps[..|ps| - 1], c);
    }
  }

  lemma {:induction false} GridLength(id: string, ps: seq<Contract>, cs: seq<Contract>)
    ensures |LinkGrid(id, ps, cs)| == |ps| * |cs|
    decreases |cs|
  {
    if cs != [] {
      var n := |cs| - 1;
      GridLength(id, ps, cs[..n]);
      RowLength(id, ps, cs[n]);
      hide LinkRow;
      assert |ps| * (n + 1) == |ps| * n + |ps|;
    }
  }

  lemma GridEmpty(id: string, ps: seq<Contract>)
    ensures LinkGrid(id, ps, []) == []
  {
  }

  method PairAll(id: string, ps: seq<Contract>, cs: seq<Contract>, matched0: seq<CrossLink>) returns (matched: seq<CrossLink>)
    ensures matched == matched0 + LinkGrid(id, ps, cs)
  {
    hide LinkGrid;
    matched := matched0;
    GridEmpty(id, ps);
    for j := 0 to |cs|
      invariant matched == matched0 + LinkGrid(id, ps, cs[..j])
    {
      assert cs[..j + 1][..j] == cs[..j];
      GridNext(id, ps, cs[..j + 1]);
      ghost var before := matched;
      for i := 0 to |ps|
        invariant matched == before + LinkRow(id, ps[..i], cs[j])
      {
        assert ps[..i + 1][..i] == ps[..i];
        var crossRepo := ps[i].repoPrefix != cs[j].repoPrefix;
        matched := matched + [CrossLink(id, ps[i], cs[j], crossRepo)];
      }
      assert ps[..|ps|] == ps;
    }
    assert cs[..|cs|] == cs;
  }

  // ---------------------------------------------------------------- the pass over all ids

  /** What one id contributes, whichever branch is taken. */
  ghost predicate Contributes(flat: seq<Contract>, id: string, r: MatchResult, r': MatchResult)
  {
    var ps, cs := OfRole(flat, id, PROVIDER), OfRole(flat, id, CONSUMER);
    if cs == [] then r' == r.(orphanProviders := r.orphanProviders + ps)
    else if ps == [] then r' == r.(orphanConsumers := r.orphanConsumers + cs)
    else
      && r'.orphanProviders == r.orphanProviders && r'.orphanConsumers == r.orphanConsumers
      && exists links :: r'.matched == r.matched + links && AllPairs(flat, id, links)
  }

  /** The links are the pairs of this id's providers and consumers, in some order. */
  ghost predicate AllPairs(flat: seq<Contract>, id: string, links: seq<CrossLink>)
  {
    && |links| == |OfRole(flat, id, PROVIDER)| * |OfRole(flat, id, CONSUMER)|
    && forall l :: Times(links, l) == if l.contractId == id && Links(l) then Times(flat, l.provider) * Times(flat, l.consumer) else 0
  }

  lemma GridAllPairs(flat: seq<Contract>, id: string)
    ensures AllPairs(flat, id, LinkGrid(id, OfRole(flat, id, PROVIDER), OfRole(flat, id, CONSUMER)))
  {
    hide OfRole, LinkGrid;
    var ps, cs := OfRole(flat, id, PROVIDER), OfRole(flat, id, CONSUMER);
    GridLength(id, ps, cs);
    forall l
      ensures Times(LinkGrid(id, ps, cs), l) == if l.contractId == id && Links(l) then Times(flat, l.provider) * Times(flat, l.consumer) else 0
    {
      GridTimes(id, ps, cs, l);
      OfRoleTimes(flat, id, PROVIDER, l.provider);
      OfRoleTimes(flat, id, CONSUMER, l.consumer);
      hide Times;
    }
  }

  ghost predicate ProvidersOn(flat: seq<Contract>, ids: seq<string>, orphans: seq<Contract>, c: Contract)
  {
    Times(orphans, c) == if c.id in ids && OrphanProvider(flat, c) then Times(flat, c) else 0
  }

  ghost predicate ConsumersOn(flat: seq<Contract>, ids: seq<string>, orphans: seq<Contract>, c: Contract)
  {
    Times(orphans, c) == if c.id in ids && OrphanConsumer(flat, c) then Times(flat, c) else 0
  }

  ghost predicate LinksOn(flat: seq<Contract>, ids: seq<string>, matched: seq<CrossLink>, l: CrossLink)
  {
    Times(matched, l) == if l.contractId in ids && Links(l) then Times(flat, l.provider) * Times(flat, l.consumer) else 0
  }

  lemma NextProviders(flat: seq<Contract>, ids: seq<string>, id: string, orphans: seq<Contract>, c: Contract)
    requires ProvidersOn(flat, ids, orphans, c) && id !in ids
    ensures ProvidersOn(flat, ids + [id], if HasRole(flat, id, CONSUMER) then orphans else orphans + OfRole(flat, id, PROVIDER), c)
  {
    OfRoleTimes(flat, id, PROVIDER, c);
    TimesAppend(orphans, OfRole(flat, id, PROVIDER), c);
    hide Times, OfRole, HasRole;
  }

  /** With no counterparts at all there are no providers to lose either. */
  lemma NextConsumers(flat: seq<Contract>, ids: seq<string>, id: string, orphans: seq<Contract>, c: Contract)
    requires ConsumersOn(flat, ids, orphans, c) && id !in ids
    ensures HasRole(flat, id, CONSUMER) && !HasRole(flat, id, PROVIDER) ==>
      ConsumersOn(flat, ids + [id], orphans + OfRole(flat, id, CONSUMER), c)
    ensures !(HasRole(flat, id, CONSUMER) && !HasRole(flat, id, PROVIDER)) ==>
      ConsumersOn(flat, ids + [id], orphans, c)
  {
    OfRoleTimes(flat, id, CONSUMER, c);
    OfRoleEmpty(flat, id, CONSUMER);
    TimesAppend(orphans, OfRole(flat, id, CONSUMER), c);
    assert OfRole(flat, id, CONSUMER) == [] ==> Times(OfRole(flat, id, CONSUMER), c) == 0;
    hide Times, OfRole, HasRole;
  }

  lemma NextLinks(flat: seq<Contract>, ids: seq<string>, id: string, matched: seq<CrossLink>, links: seq<CrossLink>, l: CrossLink)
    requires LinksOn(flat, ids, matched, l) && id !in ids && AllPairs(flat, id, links)
    ensures LinksOn(flat, ids + [id], matched + links, l)
  {
    TimesAppend(matched, links, l);
    hide Times, OfRole, Links;
  }

  /** An id with one role only has no pairs, and the empty list holds them all. */
  lemma NoPairs(flat: seq<Contract>, id: string)
    requires OfRole(flat, id, PROVIDER) == [] || OfRole(flat, id, CONSUMER) == []
    ensures AllPairs(flat, id, [])
  {
    forall l: CrossLink
      ensures l.contractId == id && Links(l) ==> Times(flat, l.provider) * Times(flat, l.consumer) == 0
    {
      OfRoleTimes(flat, id, PROVIDER, l.provider);
      OfRoleTimes(flat, id, CONSUMER, l.consumer);
      assert OfRole(flat, id, PROVIDER) == [] ==> Times(OfRole(flat, id, PROVIDER), l.provider) == 0;
      assert OfRole(flat, id, CONSUMER) == [] ==> Times(OfRole(flat, id, CONSUMER), l.consumer) == 0;
      hide Times, OfRole;
    }
    hide OfRole, Links;
  }

  /** Which of the three branches an id takes does not matter for the outcome. */
  lemma NextId(flat: seq<Contract>, ids: seq<string>, id: string, r: MatchResult, r': MatchResult)
    requires PairingOn(flat, ids, r) && id !in ids && Contributes(flat, id, r, r')
    ensures PairingOn(flat, ids + [id], r')
  {
    OfRoleEmpty(flat, id, PROVIDER);
    OfRoleEmpty(flat, id, CONSUMER);
    hide OfRole, HasRole, Times, OrphanProvider, OrphanConsumer, Links, AllPairs;
    var links := NewLinks(flat, id, r, r');
    forall c
      ensures ProvidersOn(flat, ids + [id], r'.orphanProviders, c)
      ensures ConsumersOn(flat, ids + [id], r'.orphanConsumers, c)
    {
      assert ProvidersOn(flat, ids, r.orphanProviders, c) && ConsumersOn(flat, ids, r.orphanConsumers, c);
      NextProviders(flat, ids, id, r.orphanProviders, c);
      NextConsumers(flat, ids, id, r.orphanConsumers, c);
      hide ProvidersOn, ConsumersOn, LinksOn, PairingOn;
    }
    forall l
      ensures LinksOn(flat, ids + [id], r'.matched, l)
    {
      assert LinksOn(flat, ids, r.matched, l);
      NextLinks(flat, ids, id, r.matched, links, l);
    }
    hide Contributes;
  }

  lemma NewLinks(flat: seq<Contract>, id: string, r: MatchResult, r': MatchResult) returns (links: seq<CrossLink>)
    requires Contributes(flat, id, r, r')
    ensures r'.matched == r.matched + links && AllPairs(flat, id, links)
  {
    hide OfRole, AllPairs;
    if OfRole(flat, id, PROVIDER) == [] || OfRole(flat, id, CONSUMER) == [] {
      NoPairs(flat, id);
      links := [];
    } else {
      links :| r'.matched == r.matched + links && AllPairs(flat, id, links);
    }
  }

  lemma NoIdYet(flat: seq<Contract>)
    ensures PairingOn(flat, [], MatchResult([], [], []))
  {
  }

  ghost predicate Lists(ids: seq<string>, flat: seq<Contract>)
  {
    (forall i, j :: 0 <= i < j < |ids| ==> ids[i] != ids[j]) && forall c :: c in flat ==> c.id in ids
  }

  lemma EveryId(flat: seq<Contract>, ids: seq<string>, r: MatchResult)
    requires PairingOn(flat, ids, r) && Lists(ids, flat)
    ensures Pairing(flat, r)
  {
    hide OrphanProvider, OrphanConsumer;
    forall c: Contract
      ensures Times(r.orphanProviders, c) == if OrphanProvider(flat, c) then Times(flat, c) else 0
      ensures Times(r.orphanConsumers, c) == if OrphanConsumer(flat, c) then Times(flat, c) else 0
    {
      assert ProvidersOn(flat, ids, r.orphanProviders, c) && ConsumersOn(flat, ids, r.orphanConsumers, c);
      Absent(flat, ids, c);
      hide Times, Lists;
    }
    forall l
      ensures Times(r.matched, l) == if Links(l) then Times(flat, l.provider) * Times(flat, l.consumer) else 0
    {
      assert LinksOn(flat, ids, r.matched, l);
      Absent(flat, ids, l.provider);
      hide Times, Lists;
    }
  }

  lemma Absent(flat: seq<Contract>, ids: seq<string>, c: Contract)
    requires Lists(ids, flat)
    ensures c.id !in ids ==> Times(flat, c) == 0
  {
  }

  /** The number of pairs over a list of ids. */
  ghost function PairCount(flat: seq<Contract>, ids: seq<string>): nat
  {
    if ids == [] then 0
    else
      var id := ids[|ids| - 1];
      PairCount(flat, ids[..|ids| - 1]) + |OfRole(flat, id, PROVIDER)| * |OfRole(flat, id, CONSUMER)|
  }

  /** The result in order: id by id, orphans as recorded, each consumer with each provider. */
  ghost function MatchOf(flat: seq<Contract>, ids: seq<string>): MatchResult
  {
    if ids == [] then MatchResult([], [], [])
    else
      var r, id := MatchOf(flat, ids[..|ids| - 1]), ids[|ids| - 1];
      var ps, cs := OfRole(flat, id, PROVIDER), OfRole(flat, id, CONSUMER);
      if cs == [] then r.(orphanProviders := r.orphanProviders + ps)
      else if ps == [] then r.(orphanConsumers := r.orphanConsumers + cs)
      else r.(matched := r.matched + LinkGrid(id, ps, cs))
  }

  lemma RowAt(id: string, ps: seq<Contract>, c: Contract, i: nat)
    requires i < |ps|
    ensures |LinkRow(id, ps, c)| == |ps| && LinkRow(id, ps, c)[i] == Link(id, ps[i], c)
    decreases |ps|
  {
    RowLength(id, ps, c);
    RowLength(id, ps[..|ps| - 1], c);
    if i < |ps| - 1 {
      RowAt(id, ps[..|ps| - 1], c, i);
    }
  }

  lemma {:induction false} MoreRows(j: nat, n: nat, p: nat)
    requires j <= n
    ensures p * j <= p * n
    decreases n
  {
    if j < n {
      MoreRows(j, n - 1, p);
      OneMore(p, n - 1);
    }
  }

  lemma Turned(j: nat, p: nat)
    ensures j * p == p * j
  {
  }

  lemma RowOffset(j: nat, n: nat, i: nat, p: nat)
    requires j <= n && i < p
    ensures j < n ==> j * p + i < p * n
    ensures j == n ==> j * p + i == p * n + i
    ensures p * (n + 1) == p * n + p
  {
    Turned(j, p);
    OneMore(p, n);
    if j < n {
      OneMore(p, j);
      MoreRows(j + 1, n, p);
    }
  }

  /** Which pair stands where. */
  lemma {:induction false} GridAt(id: string, ps: seq<Contract>, cs: seq<Contract>, i: nat, j: nat)
    requires i < |ps| && j < |cs|
    ensures |LinkGrid(id, ps, cs)| == |ps| * |cs| && j * |ps| + i < |ps| * |cs|
    ensures LinkGrid(id, ps, cs)[j * |ps| + i] == Link(id, ps[i], cs[j])
    decreases |cs|
  {
    hide LinkGrid, LinkRow;
    var n := |cs| - 1;
    GridLength(id, ps, cs);
    GridLength(id, ps, cs[..n]);
    GridNext(id, ps, cs);
    RowAt(id, ps, cs[n], i);
    RowOffset(j, n, i, |ps|);
    var front, row, at := LinkGrid(id, ps, cs[..n]), LinkRow(id, ps, cs[n]), j * |ps| + i;
    assert |front| == |ps| * n;
    if j < n {
      GridAt(id, ps, cs[..n], i, j);
      assert (front + row)[at] == front[at];
    } else {
      assert (front + row)[|front| + i] == row[i];
    }
  }

  /** Match: over all registry states, exactly the pairs of counterparts are linked, the rest are
      orphans, and there are as many links as providers times consumers, summed over the ids. */
  method Match(reg: Registry) returns (r: MatchResult, ghost ids: seq<string>)
    requires reg.Valid()
    ensures Pairing(reg.flat, r)
    ensures Lists(ids, reg.flat) && |r.matched| == PairCount(reg.flat, ids)
    ensures r == MatchOf(reg.flat, ids)
  {
    hide Indexes, PairingOn, OfRole, LinkGrid, AllPairs, Filter, Pairing;
    var all := reg.AllIDs();
    ids := all;
    assert Lists(all, reg.flat) by {
      ListsAll(reg.byID, reg.flat, all);
    }
    hide Lists;
    r := MatchResult([], [], []);
    NoIdYet(reg.flat);
    for k := 0 to |all|
      invariant PairingOn(reg.flat, all[..k], r)
      invariant |r.matched| == PairCount(reg.flat, all[..k])
      invariant r == MatchOf(reg.flat, all[..k])
    {
      var id := all[k];
      assert all[..k + 1] == all[..k] + [id] && all[..k + 1][..k] == all[..k];
      assert id !in all[..k];
      ghost var before := r;
      var contracts := reg.ByID(id);
      var providers, consumers := ByRole(contracts);
      ByRoleIs(reg.flat, id);
      if |consumers| == 0 {
        r := r.(orphanProviders := r.orphanProviders + providers);
      } else if |providers| == 0 {
        r := r.(orphanConsumers := r.orphanConsumers + consumers);
      } else {
        var matched := PairAll(id, providers, consumers, r.matched);
        GridAllPairs(reg.flat, id);
        GridLength(id, providers, consumers);
        assert matched == before.matched + LinkGrid(id, providers, consumers);
        r := r.(matched := matched);
      }
      assert Contributes(reg.flat, id, before, r);
      NextId(reg.flat, all[..k], id, before, r);
    }
    assert all[..|all|] == all;
    EveryId(reg.flat, all, r);
  }

  lemma ByRoleIs(flat: seq<Contract>, id: string)
    ensures forall role {:trigger RoleIs(role)} :: Filter(RoleIs(role), Filter(KeyIs(IdOf, id), flat)) == OfRole(flat, id, role)
  {
  }

  lemma ListsAll(byID: Index, flat: seq<Contract>, ids: seq<string>)
    requires Indexes(byID, flat, IdOf, false) && forall k :: k in ids <==> k in byID
    requires forall i, j :: 0 <= i < j < |ids| ==> ids[i] != ids[j]
    ensures Lists(ids, flat)
  {
    AllSeen(byID, flat, ids);
    assert ids[..|ids|] == ids;
  }
}
