/** internal/contracts/contract.go: an API contract that a symbol provides or consumes. */
module Contracts {

  const PROVIDER := "provider"
  const CONSUMER := "consumer"

  /** Meta holds the entries that are strings; confidence is a score between 0 and 1. */
  datatype Contract = Contract(
    id: string,
    ctype: string,
    role: string,
    symbolId: string,
    filePath: string,
    line: int,
    repoPrefix: string,
    meta: map<string, string>,
    confidence: real)

  // ---------------------------------------------------------------- filtering lists, in order

  function Filter(p: Contract -> bool, s: seq<Contract>): seq<Contract>
  {
    if s == [] then []
    else
      var front := Filter(p, s[..|s| - 1]);
      if p(s[|s| - 1]) then front + [s[|s| - 1]] else front
  }

  lemma {:induction false} FilterAppend(p: Contract -> bool, s: seq<Contract>, t: seq<Contract>)
    ensures Filter(p, s + t) == Filter(p, s) + Filter(p, t)
    decreases |t|
  {
    if t == [] {
      assert s + t == s;
    } else {
      var n := |t| - 1;
      assert (s + t)[..|s + t| - 1] == s + t[..n];
      FilterAppend(p, s, t[..n]);
    }
  }

  lemma {:induction false} FilterCong(p: Contract -> bool, q: Contract -> bool, s: seq<Contract>)
    requires forall c :: c in s ==> p(c) == q(c)
    ensures Filter(p, s) == Filter(q, s)
    decreases |s|
  {
    if s != [] {
      FilterCong(p, q, s[..|s| - 1]);
    }
  }

  lemma {:induction false} FilterItems(p: Contract -> bool, s: seq<Contract>)
    ensures forall c :: c in Filter(p, s) <==> c in s && p(c)
    ensures |Filter(p, s)| <= |s|
    ensures Filter(p, s) == s <==> forall c :: c in s ==> p(c)
    decreases |s|
  {
    if s != [] {
      var front, last := s[..|s| - 1], s[|s| - 1];
      assert s == front + [last];
      FilterItems(p, front);
      assert forall c :: c in s <==> c in front || c == last;
    }
  }

  /** Filtering twice is filtering once by both conditions. */
  lemma {:induction false} FilterTwice(p: Contract -> bool, q: Contract -> bool, r: Contract -> bool, s: seq<Contract>)
    requires forall c :: c in s ==> r(c) == (p(c) && q(c))
    ensures Filter(p, Filter(q, s)) == Filter(r, s)
    decreases |s|
  {
    if s != [] {
      var front, last := s[..|s| - 1], s[|s| - 1];
      FilterTwice(p, q, r, front);
      var kept := Filter(q, front);
      if q(last) {
        assert (kept + [last])[..|kept|] == kept;
      }
    }
  }

  /** What is kept and what is dropped make up the list. */
  lemma {:induction false} FilterSplit(p: Contract -> bool, q: Contract -> bool, s: seq<Contract>)
    requires forall c :: c in s ==> p(c) == !q(c)
    ensures |Filter(p, s)| + |Filter(q, s)| == |s|
    decreases |s|
  {
    if s != [] {
      FilterSplit(p, q, s[..|s| - 1]);
    }
  }
}
