/** internal/contracts/validate.go, Validate: all issues of a registry, ordered for reading. */
module Validation {
  import opened Basics
  import opened Contracts
  import opened Registry
  import opened Matching
  import opened Sorting
  import opened ShapeDiff
  import opened PairDiff

  const ORPHAN_PROVIDER := "orphan_provider"
  const ORPHAN_CONSUMER := "orphan_consumer"

  // ---------------------------------------------------------------- the order of issues

  /** Go's < on strings. */
  predicate StringLess(a: string, b: string)
  {
    if b == "" then false
    else if a == "" then true
    else if a[0] != b[0] then a[0] < b[0]
    else StringLess(a[1..], b[1..])
  }

  lemma {:induction false} StringLessTotal(a: string, b: string)
    ensures !(StringLess(a, b) && StringLess(b, a))
    ensures a != b <==> StringLess(a, b) || StringLess(b, a)
    decreases |a|
  {
    if a != "" && b != "" && a[0] == b[0] {
      StringLessTotal(a[1..], b[1..]);
      assert a == [a[0]] + a[1..] && b == [b[0]] + b[1..];
    }
  }

  lemma {:induction false} StringLessTransitive(a: string, b: string, c: string)
    requires StringLess(a, b) && StringLess(b, c)
    ensures StringLess(a, c)
    decreases |a|
  {
    if a != "" && a[0] == b[0] == c[0] {
      StringLessTransitive(a[1..], b[1..], c[1..]);
    }
  }

  /** The strings agree up to position n, where a ends or has the smaller character. */
  ghost predicate SmallerAt(a: string, b: string, n: nat)
  {
    && n <= |a| && n < |b| && a[..n] == b[..n]
    && (n < |a| ==> a[n] < b[n])
  }

  /** Lexicographic order. */
  ghost predicate LexLess(a: string, b: string)
  {
    exists n: nat :: SmallerAt(a, b, n)
  }

  lemma {:induction false} StringLessMeans(a: string, b: string)
    ensures StringLess(a, b) <==> LexLess(a, b)
    decreases |a|
  {
    if a != "" && b != "" && a[0] == b[0] {
      StringLessMeans(a[1..], b[1..]);
      if n: nat :| SmallerAt(a[1..], b[1..], n) {
        assert a[..n + 1] == [a[0]] + a[1..][..n] && b[..n + 1] == [b[0]] + b[1..][..n];
        assert SmallerAt(a, b, n + 1);
      }
      if n: nat :| SmallerAt(a, b, n) {
        assert n > 0;
        assert a[1..][..n - 1] == a[..n][1..] && b[1..][..n - 1] == b[..n][1..];
        assert SmallerAt(a[1..], b[1..], n - 1);
      }
    } else {
      if StringLess(a, b) {
        assert SmallerAt(a, b, 0);
      }
      forall n: nat | SmallerAt(a, b, n)
        ensures n == 0
      {
        AgreeAtStart(a, b, n);
      }
    }
  }

  lemma AgreeAtStart(a: string, b: string, n: nat)
    requires n <= |a| && n <= |b| && a[..n] == b[..n]
    ensures n > 0 ==> a[0] == b[0]
  {
    if n > 0 {
      assert a[..n][0] == b[..n][0];
    }
  }

  function SeverityRank(s: string): int
  {
    if s == BREAKING then 0 else if s == WARNING then 1 else if s == INFO then 2 else 3
  }

  /** The comparison that the sort uses. */
  predicate Before(a: Issue, b: Issue)
  {
    if a.severity != b.severity then SeverityRank(a.severity) < SeverityRank(b.severity)
    else if a.contractId != b.contractId then StringLess(a.contractId, b.contractId)
    else StringLess(a.kind, b.kind)
  }

  predicate Known(i: Issue)
  {
    i.severity == BREAKING || i.severity == WARNING || i.severity == INFO
  }

  /** Breaking issues weigh more than all others, warnings more than information. */
  ghost predicate Graver(s: string, t: string)
  {
    (s == BREAKING && t != BREAKING) || (s == WARNING && t == INFO)
  }

  /** Graver first, then by contract id, then by kind. */
  ghost predicate InOrder(a: Issue, b: Issue)
  {
    || Graver(a.severity, b.severity)
    || (a.severity == b.severity && LexLess(a.contractId, b.contractId))
    || (a.severity == b.severity && a.contractId == b.contractId && (a.kind == b.kind || LexLess(a.kind, b.kind)))
  }

  lemma NotBefore(a: Issue, b: Issue)
    requires Known(a) && Known(b)
    ensures !Before(b, a) <==> InOrder(a, b)
  {
    StringLessMeans(a.contractId, b.contractId);
    StringLessMeans(a.kind, b.kind);
    StringLessTotal(a.contractId, b.contractId);
    StringLessTotal(a.kind, b.kind);
    hide StringLess, LexLess;
  }

  lemma LexTransitive(a: string, b: string, c: string)
    ensures LexLess(a, b) && LexLess(b, c) ==> LexLess(a, c)
  {
    hide LexLess;
    StringLessMeans(a, b);
    StringLessMeans(b, c);
    StringLessMeans(a, c);
    if LexLess(a, b) && LexLess(b, c) {
      StringLessTransitive(a, b, c);
    }
  }

  lemma InOrderTransitive(a: Issue, b: Issue, c: Issue)
    requires Known(a) && Known(b) && Known(c) && InOrder(a, b) && InOrder(b, c)
    ensures InOrder(a, c)
  {
    LexTransitive(a.contractId, b.contractId, c.contractId);
    LexTransitive(a.kind, b.kind, c.kind);
    hide LexLess;
  }

  /** With known severities the comparison is fit for sorting. */
  lemma BeforeRanks(issues: seq<Issue>)
    requires forall i :: i in issues ==> Known(i)
    ensures Ranks(issues, Before)
  {
    hide Before, InOrder, Known;
    forall a, b | a in issues && b in issues && Before(a, b)
      ensures !Before(b, a)
    {
      NotBefore(a, b);
      NotBefore(b, a);
      NotBothWays(a, b);
    }
    forall a, b, c | a in issues && b in issues && c in issues && !Before(b, a) && !Before(c, b)
      ensures !Before(c, a)
    {
      NotBefore(a, b);
      NotBefore(b, c);
      NotBefore(a, c);
      InOrderTransitive(a, b, c);
    }
  }

  lemma NotBothWays(a: Issue, b: Issue)
    requires Known(a) && Known(b) && Before(a, b)
    ensures !Before(b, a)
  {
    StringLessTotal(a.contractId, b.contractId);
    StringLessTotal(a.kind, b.kind);
    hide StringLess;
  }

  // ---------------------------------------------------------------- where the issues come from

  function ProviderIssue(c: Contract): Issue
  {
    Issue(c.id, ORPHAN_PROVIDER, INFO, c.repoPrefix, "", "", "", "")
  }

  function ConsumerIssue(c: Contract): Issue
  {
    Issue(c.id, ORPHAN_CONSUMER, WARNING, "", c.repoPrefix, "", "", "")
  }

  function Issues(f: Contract -> Issue, cs: seq<Contract>): seq<Issue>
  {
    if cs == [] then [] else Issues(f, cs[..|cs| - 1]) + [f(cs[|cs| - 1])]
  }

  lemma {:induction false} IssuesAppend(f: Contract -> Issue, a: seq<Contract>, b: seq<Contract>)
    ensures Issues(f, a + b) == Issues(f, a) + Issues(f, b)
    decreases |b|
  {
    if b == [] {
      assert a + b == a;
    } else {
      var n := |b| - 1;
      assert (a + b)[..|a + b| - 1] == a + b[..n];
      IssuesAppend(f, a, b[..n]);
    }
  }

  lemma {:induction false} IssuesItems(f: Contract -> Issue, cs: seq<Contract>)
    ensures forall i :: i in Issues(f, cs) ==> exists c :: c in cs && i == f(c)
    decreases |cs|
  {
    if cs != [] {
      var front, last := cs[..|cs| - 1], cs[|cs| - 1];
      IssuesItems(f, front);
      assert last in cs && forall c :: c in front ==> c in cs;
    }
  }

  /** The issue list consists of one issue per orphan and the diff of every pair, and nothing else. */
  ghost predicate Explained(lookup: ShapeLookup, out: seq<Issue>, r: MatchResult, diffs: seq<seq<Issue>>)
  {
    && |diffs| == |r.matched|
    && (forall k :: 0 <= k < |diffs| ==> Diffed(r.matched[k], lookup, diffs[k]))
    && multiset(out) ==
       multiset(Issues(ProviderIssue, r.orphanProviders)) + multiset(Issues(ConsumerIssue, r.orphanConsumers))
       + multiset(Concat(diffs))
  }

  /** What the issues say: known severities, and orphan kinds only for orphans. */
  lemma ExplainedItem(lookup: ShapeLookup, out: seq<Issue>, r: MatchResult, diffs: seq<seq<Issue>>, i: Issue)
    requires Explained(lookup, out, r, diffs)
    ensures i in out ==> Known(i)
    ensures i.kind == ORPHAN_PROVIDER ==> Times(out, i) == Times(Issues(ProviderIssue, r.orphanProviders), i)
    ensures i.kind == ORPHAN_CONSUMER ==> Times(out, i) == Times(Issues(ConsumerIssue, r.orphanConsumers), i)
    ensures i.kind != ORPHAN_PROVIDER && i.kind != ORPHAN_CONSUMER ==> Times(out, i) == Times(Concat(diffs), i)
  {
    var a, b, c := Issues(ProviderIssue, r.orphanProviders), Issues(ConsumerIssue, r.orphanConsumers), Concat(diffs);
    ThreeParts(out, a, b, c, i);
    ProviderItems(r.orphanProviders, i);
    ConsumerItems(r.orphanConsumers, i);
    if i in c {
      DiffItem(lookup, r.matched, diffs, i);
    }
    hide Explained, Issues, Concat, Diffed, Times, Known, ORPHAN_PROVIDER, ORPHAN_CONSUMER;
  }

  lemma ThreeParts(out: seq<Issue>, a: seq<Issue>, b: seq<Issue>, c: seq<Issue>, i: Issue)
    requires multiset(out) == multiset(a) + multiset(b) + multiset(c)
    ensures Times(out, i) == Times(a, i) + Times(b, i) + Times(c, i)
    ensures i in out <==> i in a || i in b || i in c
    ensures (i in a <==> Times(a, i) > 0) && (i in b <==> Times(b, i) > 0) && (i in c <==> Times(c, i) > 0)
  {
    assert i in out <==> i in multiset(out);
  }

  lemma ProviderItems(cs: seq<Contract>, i: Issue)
    ensures i in Issues(ProviderIssue, cs) ==> i.kind == ORPHAN_PROVIDER && i.kind != ORPHAN_CONSUMER && Known(i)
  {
    IssuesItems(ProviderIssue, cs);
    hide Issues;
  }

  lemma ConsumerItems(cs: seq<Contract>, i: Issue)
    ensures i in Issues(ConsumerIssue, cs) ==> i.kind == ORPHAN_CONSUMER && i.kind != ORPHAN_PROVIDER && Known(i)
  {
    IssuesItems(ConsumerIssue, cs);
    hide Issues;
  }

  lemma DiffItem(lookup: ShapeLookup, pairs: seq<CrossLink>, diffs: seq<seq<Issue>>, i: Issue)
    requires |pairs| == |diffs| && forall k :: 0 <= k < |diffs| ==> Diffed(pairs[k], lookup, diffs[k])
    requires i in Concat(diffs)
    ensures Known(i) && i.kind != ORPHAN_PROVIDER && i.kind != ORPHAN_CONSUMER
  {
    hide Diffed, Concat;
    ConcatItems(diffs);
    var k :| 0 <= k < |diffs| && i in diffs[k];
    DiffedIssues(pairs[k], lookup, diffs[k]);
  }

  // ---------------------------------------------------------------- all pairs of one id

  /** Each provider with each consumer: the other nesting of the loops. */
  function LinkColumn(id: string, p: Contract, cs: seq<Contract>): seq<CrossLink>
  {
    if cs == [] then [] else LinkColumn(id, p, cs[..|cs| - 1]) + [Link(id, p, cs[|cs| - 1])]
  }

  function LinkGridByProvider(id: string, ps: seq<Contract>, cs: seq<Contract>): seq<CrossLink>
  {
    if ps == [] then [] else LinkGridByProvider(id, ps[..|ps| - 1], cs) + LinkColumn(id, ps[|ps| - 1], cs)
  }

  lemma {:induction false} ColumnTimes(id: string, p: Contract, cs: seq<Contract>, l: CrossLink)
    ensures Times(LinkColumn(id, p, cs), l) == if Joins(id, l) && l.provider == p then Times(cs, l.consumer) else 0
    decreases |cs|
  {
    if cs != [] {
      var n := |cs| - 1;
      ColumnTimes(id, p, cs[..n], l);
      TimesNext(cs, l.consumer);
      TimesAppend(LinkColumn(id, p, cs[..n]), [Link(id, p, cs[n])], l);
      assert Times([Link(id, p, cs[n])], l) == if Link(id, p, cs[n]) == l then 1 else 0;
      hide Times;
    }
  }

  lemma OneMoreRow(a: nat, b: nat)
    ensures (a + 1) * b == a * b + b
  {
  }

  /** The nesting does not matter: the same links, as often. */
  lemma {:induction false} NestingTimes(id: string, ps: seq<Contract>, cs: seq<Contract>, l: CrossLink)
    ensures Times(LinkGridByProvider(id, ps, cs), l) == Times(LinkGrid(id, ps, cs), l)
    decreases |ps|
  {
    hide Times, LinkGrid, LinkGridByProvider, LinkColumn, Joins;
    GridTimes(id, ps, cs, l);
    if ps == [] {
      NoProviders(id, cs, l);
    } else {
      var n := |ps| - 1;
      NestingTimes(id, ps[..n], cs, l);
      GridTimes(id, ps[..n], cs, l);
      ColumnTimes(id, ps[n], cs, l);
      TimesNext(ps, l.provider);
      TimesAppend(LinkGridByProvider(id, ps[..n], cs), LinkColumn(id, ps[n], cs), l);
      NextColumn(id, ps, cs);
      OneMoreRow(Times(ps[..n], l.provider), Times(cs, l.consumer));
    }
  }

  lemma NoProviders(id: string, cs: seq<Contract>, l: CrossLink)
    ensures Times(LinkGridByProvider(id, [], cs), l) == 0 && Times<Contract>([], l.provider) == 0
  {
  }

  lemma {:induction false} ColumnLength(id: string, p: Contract, cs: seq<Contract>)
    ensures |LinkColumn(id, p, cs)| == |cs|
    decreases |cs|
  {
    if cs != [] {
      ColumnLength(id, p, cs[..|cs| - 1]);
    }
  }

  lemma {:induction false} NestingLength(id: string, ps: seq<Contract>, cs: seq<Contract>)
    ensures |LinkGridByProvider(id, ps, cs)| == |ps| * |cs|
    decreases |ps|
  {
    if ps != [] {
      var n := |ps| - 1;
      NestingLength(id, ps[..n], cs);
      ColumnLength(id, ps[n], cs);
      NextColumn(id, ps, cs);
      hide LinkColumn, LinkGridByProvider;
      OneMoreRow(n, |cs|);
    }
  }

  lemma NextColumn(id: string, ps: seq<Contract>, cs: seq<Contract>)
    requires ps != []
    ensures LinkGridByProvider(id, ps, cs) == LinkGridByProvider(id, ps[..|ps| - 1], cs) + LinkColumn(id, ps[|ps| - 1], cs)
  {
  }

  lemma NestedAllPairs(flat: seq<Contract>, id: string)
    ensures AllPairs(flat, id, LinkGridByProvider(id, OfRole(flat, id, PROVIDER), OfRole(flat, id, CONSUMER)))
  {
    hide OfRole, LinkGrid, LinkGridByProvider, Times;
    var ps, cs := OfRole(flat, id, PROVIDER), OfRole(flat, id, CONSUMER);
    GridAllPairs(flat, id);
    NestingLength(id, ps, cs);
    forall l
      ensures Times(LinkGridByProvider(id, ps, cs), l) == Times(LinkGrid(id, ps, cs), l)
    {
      NestingTimes(id, ps, cs, l);
    }
  }

  /** The diffs found for these pairs. */
  ghost predicate DiffsOf(lookup: ShapeLookup, pairs: seq<CrossLink>, diffs: seq<seq<Issue>>)
  {
    |pairs| == |diffs| && forall k :: 0 <= k < |diffs| ==> Diffed(pairs[k], lookup, diffs[k])
  }

  method DiffAll(id: string, ps: seq<Contract>, cs: seq<Contract>, lookup: ShapeLookup, out0: seq<Issue>)
    returns (out: seq<Issue>, ghost diffs: seq<seq<Issue>>)
    ensures DiffsOf(lookup, LinkGridByProvider(id, ps, cs), diffs)
    ensures out == out0 + Concat(diffs)
  {
    hide Diffed;
    out, diffs := out0, [];
    ghost var pairs: seq<CrossLink> := [];
    for i := 0 to |ps|
      invariant pairs == LinkGridByProvider(id, ps[..i], cs)
      invariant DiffsOf(lookup, pairs, diffs) && out == out0 + Concat(diffs)
    {
      assert ps[..i + 1][..i] == ps[..i];
      ghost var before := pairs;
      for j := 0 to |cs|
        invariant pairs == before + LinkColumn(id, ps[i], cs[..j])
        invariant DiffsOf(lookup, pairs, diffs) && out == out0 + Concat(diffs)
      {
        hide LinkGridByProvider;
        assert cs[..j + 1][..j] == cs[..j];
        var issues := DiffPair(Link(id, ps[i], cs[j]), lookup);
        out := out + issues;
        assert (diffs + [issues])[..|diffs|] == diffs;
        pairs, diffs := pairs + [Link(id, ps[i], cs[j])], diffs + [issues];
      }
      assert cs[..|cs|] == cs;
    }
    assert ps[..|ps|] == ps;
  }

  method Orphans(cs: seq<Contract>, f: Contract -> Issue, out0: seq<Issue>) returns (out: seq<Issue>)
    ensures out == out0 + Issues(f, cs)
  {
    out := out0;
    for i := 0 to |cs|
      invariant out == out0 + Issues(f, cs[..i])
    {
      assert cs[..i + 1][..i] == cs[..i];
      out := out + [f(cs[i])];
    }
    assert cs[..|cs|] == cs;
  }

  // ---------------------------------------------------------------- one id at a time

  lemma ExplainProviders(lookup: ShapeLookup, out: seq<Issue>, r: MatchResult, diffs: seq<seq<Issue>>, ps: seq<Contract>)
    requires Explained(lookup, out, r, diffs)
    ensures Explained(lookup, out + Issues(ProviderIssue, ps), r.(orphanProviders := r.orphanProviders + ps), diffs)
  {
    IssuesAppend(ProviderIssue, r.orphanProviders, ps);
    hide Issues, Concat, Diffed;
  }

  lemma ExplainConsumers(lookup: ShapeLookup, out: seq<Issue>, r: MatchResult, diffs: seq<seq<Issue>>, cs: seq<Contract>)
    requires Explained(lookup, out, r, diffs)
    ensures Explained(lookup, out + Issues(ConsumerIssue, cs), r.(orphanConsumers := r.orphanConsumers + cs), diffs)
  {
    IssuesAppend(ConsumerIssue, r.orphanConsumers, cs);
    hide Issues, Concat, Diffed;
  }

  lemma ExplainPairs(lookup: ShapeLookup, out: seq<Issue>, r: MatchResult, diffs: seq<seq<Issue>>,
                     pairs: seq<CrossLink>, more: seq<seq<Issue>>)
    requires Explained(lookup, out, r, diffs) && DiffsOf(lookup, pairs, more)
    ensures Explained(lookup, out + Concat(more), r.(matched := r.matched + pairs), diffs + more)
  {
    ConcatAppend(diffs, more);
    hide Issues, Concat, Diffed;
  }

  lemma NothingFound(lookup: ShapeLookup)
    ensures Explained(lookup, [], MatchResult([], [], []), [])
  {
  }

  /** What one id contributes, in order: its orphans, or the diffs of each provider with each consumer. */
  ghost predicate Block(flat: seq<Contract>, id: string, lookup: ShapeLookup, block: seq<Issue>)
  {
    var ps, cs := OfRole(flat, id, PROVIDER), OfRole(flat, id, CONSUMER);
    if ps == [] then
      && |block| == |cs|
      && forall k :: 0 <= k < |cs| ==> block[k] == Issue(id, "orphan_consumer", "warning", "", cs[k].repoPrefix, "", "", "")
    else if cs == [] then
      && |block| == |ps|
      && forall k :: 0 <= k < |ps| ==> block[k] == Issue(id, "orphan_provider", "info", ps[k].repoPrefix, "", "", "", "")
    else exists diffs :: DiffsOf(lookup, LinkGridByProvider(id, ps, cs), diffs) && block == Concat(diffs)
  }

  lemma {:induction false} IssuesAt(f: Contract -> Issue, cs: seq<Contract>)
    ensures |Issues(f, cs)| == |cs| && forall k :: 0 <= k < |cs| ==> Issues(f, cs)[k] == f(cs[k])
    decreases |cs|
  {
    if cs != [] {
      IssuesAt(f, cs[..|cs| - 1]);
    }
  }

  lemma OrphanBlock(flat: seq<Contract>, id: string, lookup: ShapeLookup)
    ensures var ps, cs := OfRole(flat, id, PROVIDER), OfRole(flat, id, CONSUMER);
      && (ps == [] ==> Block(flat, id, lookup, Issues(ConsumerIssue, cs)))
      && (ps != [] && cs == [] ==> Block(flat, id, lookup, Issues(ProviderIssue, ps)))
  {
    var ps, cs := OfRole(flat, id, PROVIDER), OfRole(flat, id, CONSUMER);
    IssuesAt(ConsumerIssue, cs);
    IssuesAt(ProviderIssue, ps);
    OfRoleIds(flat, id, CONSUMER);
    OfRoleIds(flat, id, PROVIDER);
    hide OfRole, Issues, DiffsOf;
  }

  lemma OfRoleIds(flat: seq<Contract>, id: string, role: string)
    ensures forall k :: 0 <= k < |OfRole(flat, id, role)| ==> OfRole(flat, id, role)[k].id == id
  {
    var own := Filter(KeyIs(IdOf, id), flat);
    WithId(flat, id);
    FilterItems(RoleIs(role), own);
    hide Filter;
    var found := OfRole(flat, id, role);
    forall k | 0 <= k < |found|
      ensures found[k].id == id
    {
      assert found[k] in found;
      assert found[k] in own;
    }
  }

  /** Which pair stands where in that order. */
  lemma {:induction false} NestedAt(id: string, ps: seq<Contract>, cs: seq<Contract>, i: nat, j: nat)
    requires i < |ps| && j < |cs|
    ensures |LinkGridByProvider(id, ps, cs)| == |ps| * |cs| && i * |cs| + j < |ps| * |cs|
    ensures LinkGridByProvider(id, ps, cs)[i * |cs| + j] == Link(id, ps[i], cs[j])
    decreases |ps|
  {
    hide LinkGridByProvider, LinkColumn;
    var n := |ps| - 1;
    var front, column, at := LinkGridByProvider(id, ps[..n], cs), LinkColumn(id, ps[n], cs), i * |cs| + j;
    NestingLength(id, ps, cs);
    NestingLength(id, ps[..n], cs);
    NextColumn(id, ps, cs);
    ColumnAt(id, ps[n], cs, j);
    RowIndex(i, n, j, |cs|);
    if i < n {
      NestedAt(id, ps[..n], cs, i, j);
      assert (front + column)[at] == front[at];
    } else {
      assert at == |front| + j;
      assert (front + column)[|front| + j] == column[j];
    }
  }

  lemma RowIndex(i: nat, n: nat, j: nat, c: nat)
    requires i <= n && j < c
    ensures i < n ==> i * c + j < n * c
    ensures i == n ==> i * c + j == n * c + j
    ensures i * c + j < (n + 1) * c
  {
    RowOffset(i, n, j, c);
    RowOffset(i, n + 1, j, c);
    Turned(n, c);
    Turned(n + 1, c);
  }

  lemma {:induction false} ColumnAt(id: string, p: Contract, cs: seq<Contract>, j: nat)
    requires j < |cs|
    ensures |LinkColumn(id, p, cs)| == |cs| && LinkColumn(id, p, cs)[j] == Link(id, p, cs[j])
    decreases |cs|
  {
    ColumnLength(id, p, cs);
    if j < |cs| - 1 {
      ColumnLength(id, p, cs[..|cs| - 1]);
      ColumnAt(id, p, cs[..|cs| - 1], j);
    } else {
      ColumnLength(id, p, cs[..|cs| - 1]);
    }
  }

  /** The branches for one id; an id without providers reports its consumers, if any. */
  method ValidateId(id: string, items: seq<Contract>, lookup: ShapeLookup, ghost flat: seq<Contract>,
                    out0: seq<Issue>, ghost r0: MatchResult, ghost diffs0: seq<seq<Issue>>)
    returns (out: seq<Issue>, ghost r: MatchResult, ghost diffs: seq<seq<Issue>>, ghost block: seq<Issue>)
    requires items == Filter(KeyIs(IdOf, id), flat) && Explained(lookup, out0, r0, diffs0)
    ensures Explained(lookup, out, r, diffs) && Contributes(flat, id, r0, r)
    ensures out == out0 + block && Block(flat, id, lookup, block)
  {
    hide Explained, Filter, LinkGridByProvider, AllPairs, DiffsOf, Concat, Issues;
    var providers, consumers := ByRole(items);
    ByRoleIs(flat, id);
    OrphanBlock(flat, id, lookup);
    assert r0.orphanConsumers + [] == r0.orphanConsumers && r0.orphanProviders + [] == r0.orphanProviders;
    if |providers| == 0 {
      out := Orphans(consumers, ConsumerIssue, out0);
      ExplainConsumers(lookup, out0, r0, diffs0, consumers);
      r, diffs, block := r0.(orphanConsumers := r0.orphanConsumers + consumers), diffs0, Issues(ConsumerIssue, consumers);
    } else if |consumers| == 0 {
      out := Orphans(providers, ProviderIssue, out0);
      ExplainProviders(lookup, out0, r0, diffs0, providers);
      r, diffs, block := r0.(orphanProviders := r0.orphanProviders + providers), diffs0, Issues(ProviderIssue, providers);
    } else {
      ghost var more;
      ghost var pairs := LinkGridByProvider(id, providers, consumers);
      out, more := DiffAll(id, providers, consumers, lookup, out0);
      ExplainPairs(lookup, out0, r0, diffs0, pairs, more);
      NestedAllPairs(flat, id);
      r, diffs, block := r0.(matched := r0.matched + pairs), diffs0 + more, Concat(more);
    }
  }

  ghost predicate Sorted(out: seq<Issue>)
  {
    forall i, j :: 0 <= i < j < |out| ==> InOrder(out[i], out[j])
  }

  lemma SortedBy(out: seq<Issue>)
    requires Ordered(out, Before) && forall i :: i in out ==> Known(i)
    ensures Sorted(out)
  {
    hide Before, InOrder, Known;
    forall i, j | 0 <= i < j < |out|
      ensures InOrder(out[i], out[j])
    {
      NotBefore(out[i], out[j]);
    }
  }

  /** No issue stands behind a less grave one. */
  ghost predicate GraveFirst(out: seq<Issue>)
  {
    && (forall i, j :: 0 <= i < j < |out| && out[j].severity == BREAKING ==> out[i].severity == BREAKING)
    && (forall i, j :: 0 <= i < j < |out| && out[j].severity == WARNING ==> out[i].severity != INFO)
  }

  lemma SortedGraveFirst(out: seq<Issue>)
    requires Sorted(out) && forall i :: i in out ==> Known(i)
    ensures GraveFirst(out)
  {
    hide LexLess, Known;
    forall i, j | 0 <= i < j < |out|
      ensures out[j].severity == BREAKING ==> out[i].severity == BREAKING
      ensures out[j].severity == WARNING ==> out[i].severity != INFO
    {
      assert InOrder(out[i], out[j]);
    }
  }

  /** How a list of issues came about: the orphans and the pairs with their diffs, the ids in the
      order they were taken, what each contributed, and where the sort put it. */
  datatype Trail = Trail(r: MatchResult, diffs: seq<seq<Issue>>, ids: seq<string>, blocks: seq<seq<Issue>>, perm: seq<nat>)

  ghost predicate Tie(a: Issue, b: Issue)
  {
    a.severity == b.severity && a.contractId == b.contractId && a.kind == b.kind
  }

  /** Issues that tie in severity, id and kind keep the order in which they were found. */
  ghost predicate TiesKept(out: seq<Issue>, perm: seq<nat>)
  {
    && |perm| == |out|
    && forall i, j :: 0 <= i < j < |out| && Tie(out[i], out[j]) ==> perm[i] < perm[j]
  }

  ghost predicate Blocks(flat: seq<Contract>, lookup: ShapeLookup, ids: seq<string>, blocks: seq<seq<Issue>>)
  {
    |blocks| == |ids| && forall k :: 0 <= k < |ids| ==> Block(flat, ids[k], lookup, blocks[k])
  }

  /** The list is a rearrangement of what the ids contribute, one after the other. */
  ghost predicate Arranged(flat: seq<Contract>, lookup: ShapeLookup, out: seq<Issue>, t: Trail)
  {
    && Lists(t.ids, flat) && Blocks(flat, lookup, t.ids, t.blocks)
    && Permutes(t.perm, |out|) && Follows(Concat(t.blocks), out, t.perm) && multiset(out) == multiset(Concat(t.blocks))
    && TiesKept(out, t.perm)
  }

  lemma StableKeepsTies(out: seq<Issue>, perm: seq<nat>)
    requires Stable(out, perm, Before)
    ensures TiesKept(out, perm)
  {
    forall i, j | 0 <= i < j < |out| && Tie(out[i], out[j])
      ensures perm[i] < perm[j]
    {
      StringLessTotal(out[i].kind, out[j].kind);
    }
  }

  /** Validate over a registry. */
  method Validate(reg: Registry, lookup: Option<ShapeLookup>) returns (out: seq<Issue>, ghost t: Trail)
    requires reg.Valid()
    ensures Pairing(reg.flat, t.r) && Explained(Lookup(lookup), out, t.r, t.diffs)
    ensures Arranged(reg.flat, Lookup(lookup), out, t)
    ensures Sorted(out) && GraveFirst(out)
  {
    hide Indexes, Explained, PairingOn, Pairing, Ranks, Ordered, Stable, Lists, Contributes, Filter, Block, Concat, Permutes, Follows,
         Sorted, GraveFirst, TiesKept, Known;
    var find := Lookup(lookup);
    var ids := reg.AllIDs();
    ListsAll(reg.byID, reg.flat, ids);
    out := [];
    ghost var r, diffs, blocks: seq<seq<Issue>> := MatchResult([], [], []), [], [];
    NothingFound(find);
    NoIdYet(reg.flat);
    NoParts();
    for k := 0 to |ids|
      invariant Explained(find, out, r, diffs) && PairingOn(reg.flat, ids[..k], r)
      invariant |blocks| == k && out == Concat(blocks)
      invariant forall i :: 0 <= i < k ==> Block(reg.flat, ids[i], find, blocks[i])
    {
      assert ids[..k + 1] == ids[..k] + [ids[k]];
      assert ids[k] !in ids[..k];
      ghost var before, block := r, [];
      var items := reg.ByID(ids[k]);
      if |items| == 0 {
        EmptyId(reg.flat, ids[k], find, r);
      } else {
        out, r, diffs, block := ValidateId(ids[k], items, find, reg.flat, out, r, diffs);
      }
      NextId(reg.flat, ids[..k], ids[k], before, r);
      LastPart(blocks, block);
      assert out == Concat(blocks) + block;
      blocks := blocks + [block];
    }
    assert ids[..|ids|] == ids;
    EveryId(reg.flat, ids, r);
    KnownIssues(find, out, r, diffs);
    BeforeRanks(out);
    ghost var unsorted := out;
    ghost var perm;
    out, perm := StableSort(out, Before);
    SameExplanation(find, unsorted, out, r, diffs);
    KnownIssues(find, out, r, diffs);
    SortedBy(out);
    SortedGraveFirst(out);
    StableKeepsTies(out, perm);
    SameLength(unsorted, out);
    t := Trail(r, diffs, ids, blocks, perm);
  }

  lemma SameLength(a: seq<Issue>, b: seq<Issue>)
    requires multiset(a) == multiset(b)
    ensures |a| == |b|
  {
    assert |multiset(a)| == |multiset(b)|;
  }

  lemma NoParts()
    ensures Concat<Issue>([]) == []
  {
  }

  lemma LastPart(parts: seq<seq<Issue>>, part: seq<Issue>)
    ensures Concat(parts + [part]) == Concat(parts) + part
  {
    assert (parts + [part])[..|parts|] == parts;
  }

  /** Without a lookup no shape is known. */
  function Lookup(lookup: Option<ShapeLookup>): ShapeLookup
  {
    match lookup
    case Some(f) => f
    case None => (_ => None)
  }

  lemma KnownIssues(lookup: ShapeLookup, out: seq<Issue>, r: MatchResult, diffs: seq<seq<Issue>>)
    requires Explained(lookup, out, r, diffs)
    ensures forall i :: i in out ==> Known(i)
  {
    hide Explained, Known;
    forall i | i in out
      ensures Known(i)
    {
      ExplainedItem(lookup, out, r, diffs, i);
    }
  }

  lemma SameExplanation(lookup: ShapeLookup, out: seq<Issue>, out': seq<Issue>, r: MatchResult, diffs: seq<seq<Issue>>)
    requires Explained(lookup, out, r, diffs) && multiset(out') == multiset(out)
    ensures Explained(lookup, out', r, diffs)
  {
  }

  lemma EmptyId(flat: seq<Contract>, id: string, lookup: ShapeLookup, r: MatchResult)
    requires Filter(KeyIs(IdOf, id), flat) == []
    ensures Contributes(flat, id, r, r) && Block(flat, id, lookup, [])
  {
    assert OfRole(flat, id, PROVIDER) == [] && OfRole(flat, id, CONSUMER) == [];
    assert r.orphanProviders + [] == r.orphanProviders;
  }

  // ---------------------------------------------------------------- agreement with Match

  /** What holds of the flat list determines a pairing, up to order. */
  lemma PairingUnique(flat: seq<Contract>, r: MatchResult, s: MatchResult)
    requires Pairing(flat, r) && Pairing(flat, s)
    ensures multiset(r.matched) == multiset(s.matched)
    ensures multiset(r.orphanProviders) == multiset(s.orphanProviders)
    ensures multiset(r.orphanConsumers) == multiset(s.orphanConsumers)
  {
    hide OrphanProvider, OrphanConsumer, Links;
    forall l
      ensures multiset(r.matched)[l] == multiset(s.matched)[l]
    {
      assert Times(r.matched, l) == Times(s.matched, l);
    }
    forall c
      ensures multiset(r.orphanProviders)[c] == multiset(s.orphanProviders)[c]
      ensures multiset(r.orphanConsumers)[c] == multiset(s.orphanConsumers)[c]
    {
      assert Times(r.orphanProviders, c) == Times(s.orphanProviders, c);
      assert Times(r.orphanConsumers, c) == Times(s.orphanConsumers, c);
    }
  }

  lemma Without<T>(s: seq<T>, k: nat)
    requires k < |s|
    ensures multiset(s) == multiset(s[..k] + s[k + 1..]) + multiset{s[k]}
  {
    assert s == s[..k] + [s[k]] + s[k + 1..];
  }

  lemma OneLess<T>(a: seq<T>, b: seq<T>, k: nat)
    requires a != [] && k < |b| && b[k] == a[|a| - 1] && multiset(a) == multiset(b)
    ensures multiset(a[..|a| - 1]) == multiset(b[..k] + b[k + 1..])
  {
    var n := |a| - 1;
    Without(a, n);
    Without(b, k);
    assert a[..n] + a[n + 1..] == a[..n];
    SameRest(multiset(a[..n]), multiset(b[..k] + b[k + 1..]), a[n]);
  }

  lemma SameRest<T>(m: multiset<T>, n: multiset<T>, x: T)
    requires m + multiset{x} == n + multiset{x}
    ensures m == n
  {
    assert m == (m + multiset{x}) - multiset{x};
    assert n == (n + multiset{x}) - multiset{x};
  }

  lemma IssuesWithout(f: Contract -> Issue, b: seq<Contract>, k: nat)
    requires k < |b|
    ensures multiset(Issues(f, b)) == multiset(Issues(f, b[..k] + b[k + 1..])) + multiset{f(b[k])}
  {
    hide Issues;
    var u, v, x := b[..k], b[k + 1..], [b[k]];
    assert b == u + x + v;
    IssuesAppend(f, u + x, v);
    IssuesAppend(f, u, x);
    IssuesAppend(f, u, v);
    OneIssue(f, b[k]);
    InTheMiddle(Issues(f, u), f(b[k]), Issues(f, v));
  }

  lemma OneIssue(f: Contract -> Issue, c: Contract)
    ensures Issues(f, [c]) == [f(c)]
  {
    assert [c][..0] == [];
  }

  lemma InTheMiddle<T>(a: seq<T>, x: T, b: seq<T>)
    ensures multiset(a + [x] + b) == multiset(a + b) + multiset{x}
  {
  }

  /** Mapping equal multisets gives equal multisets. */
  lemma {:induction false} IssuesPermuted(f: Contract -> Issue, a: seq<Contract>, b: seq<Contract>)
    requires multiset(a) == multiset(b)
    ensures multiset(Issues(f, a)) == multiset(Issues(f, b))
    decreases |a|
  {
    if a == [] {
      assert b == [] by {
        assert |multiset(a)| == |multiset(b)|;
      }
    } else {
      hide Issues;
      var n := |a| - 1;
      assert a[n] in multiset(b);
      var k :| 0 <= k < |b| && b[k] == a[n];
      OneLess(a, b, k);
      IssuesPermuted(f, a[..n], b[..k] + b[k + 1..]);
      IssuesWithout(f, a, n);
      IssuesWithout(f, b, k);
      assert a[..n] + a[n + 1..] == a[..n];
    }
  }

  /** On one registry, Validate and Match agree: the orphan issues are those of Match's orphans, as
      often, and the remaining issues are the diffs of exactly the matched pairs. */
  lemma ValidateAgreesWithMatch(flat: seq<Contract>, m: MatchResult, lookup: ShapeLookup,
                                out: seq<Issue>, r: MatchResult, diffs: seq<seq<Issue>>)
    requires Pairing(flat, m) && Pairing(flat, r) && Explained(lookup, out, r, diffs)
    ensures multiset(r.matched) == multiset(m.matched) && DiffsOf(lookup, r.matched, diffs)
    ensures forall i: Issue :: i.kind == ORPHAN_PROVIDER ==> Times(out, i) == Times(Issues(ProviderIssue, m.orphanProviders), i)
    ensures forall i: Issue :: i.kind == ORPHAN_CONSUMER ==> Times(out, i) == Times(Issues(ConsumerIssue, m.orphanConsumers), i)
    ensures forall i: Issue :: i.kind != ORPHAN_PROVIDER && i.kind != ORPHAN_CONSUMER ==> Times(out, i) == Times(Concat(diffs), i)
  {
    hide Issues, Concat, Diffed, Pairing;
    PairingUnique(flat, m, r);
    IssuesPermuted(ProviderIssue, m.orphanProviders, r.orphanProviders);
    IssuesPermuted(ConsumerIssue, m.orphanConsumers, r.orphanConsumers);
    forall i: Issue
      ensures i.kind == ORPHAN_PROVIDER ==> Times(out, i) == Times(Issues(ProviderIssue, m.orphanProviders), i)
      ensures i.kind == ORPHAN_CONSUMER ==> Times(out, i) == Times(Issues(ConsumerIssue, m.orphanConsumers), i)
      ensures i.kind != ORPHAN_PROVIDER && i.kind != ORPHAN_CONSUMER ==> Times(out, i) == Times(Concat(diffs), i)
    {
      ExplainedItem(lookup, out, r, diffs, i);
    }
  }

  /** Validate reports something breaking exactly when some provider and consumer of one contract
      break: an orphan never does. */
  lemma ValidateBreaksIff(lookup: ShapeLookup, out: seq<Issue>, r: MatchResult, diffs: seq<seq<Issue>>)
    requires Explained(lookup, out, r, diffs)
    ensures HasSeverity(out, BREAKING) <==>
      exists k :: 0 <= k < |r.matched| && (Breaks(r.matched[k], Response, lookup) || Breaks(r.matched[k], Request, lookup))
  {
    hide Diffed, Breaks, Issues, Concat;
    if i :| 0 <= i < |out| && out[i].severity == BREAKING {
      BreakingFromPair(lookup, out, r, diffs, out[i]);
      ConcatItems(diffs);
      var k :| 0 <= k < |diffs| && out[i] in diffs[k];
      PairBreaksIff(r.matched[k], lookup, diffs[k]);
    }
    if k :| 0 <= k < |r.matched| && (Breaks(r.matched[k], Response, lookup) || Breaks(r.matched[k], Request, lookup)) {
      PairBreaksIff(r.matched[k], lookup, diffs[k]);
      var i :| 0 <= i < |diffs[k]| && diffs[k][i].severity == BREAKING;
      PartInConcat(diffs, k, diffs[k][i]);
      PartReported(lookup, out, r, diffs, diffs[k][i]);
    }
  }

  lemma BreakingFromPair(lookup: ShapeLookup, out: seq<Issue>, r: MatchResult, diffs: seq<seq<Issue>>, i: Issue)
    requires Explained(lookup, out, r, diffs) && i in out && i.severity == BREAKING
    ensures i in Concat(diffs)
  {
    var a, b, c := Issues(ProviderIssue, r.orphanProviders), Issues(ConsumerIssue, r.orphanConsumers), Concat(diffs);
    ThreeParts(out, a, b, c, i);
    IssuesItems(ProviderIssue, r.orphanProviders);
    IssuesItems(ConsumerIssue, r.orphanConsumers);
    hide Explained, Issues, Concat, Times;
  }

  lemma PartReported(lookup: ShapeLookup, out: seq<Issue>, r: MatchResult, diffs: seq<seq<Issue>>, i: Issue)
    requires Explained(lookup, out, r, diffs) && i in Concat(diffs)
    ensures i in out
  {
    ThreeParts(out, Issues(ProviderIssue, r.orphanProviders), Issues(ConsumerIssue, r.orphanConsumers), Concat(diffs), i);
    hide Explained, Issues, Concat, Times;
  }
}
