/** sort.Slice as its callers use it: some rearrangement that is in order. Callers are
    verified against this contract alone, so they hold for every order of equal keys. */
module Sorting {

  /** perm lists each of 0..n-1 exactly once. */
  ghost predicate Permutes(perm: seq<nat>, n: nat)
  {
    && |perm| == n
    && (forall i :: 0 <= i < n ==> perm[i] < n)
    && (forall i, j :: 0 <= i < j < n ==> perm[i] != perm[j])
    && (forall k: nat :: k < n ==> k in perm)
  }

  lemma InsertPermutes(perm: seq<nat>, n: nat, p: nat)
    requires Permutes(perm, n) && p <= n
    ensures Permutes(perm[..p] + [n] + perm[p..], n + 1)
  {
    var more := perm[..p] + [n] + perm[p..];
    forall k: nat | k < n + 1
      ensures k in more
    {
      if k == n {
        assert more[p] == n;
      } else {
        assert k in perm;
        var i :| 0 <= i < |perm| && perm[i] == k;
        assert more[if i < p then i else i + 1] == k;
      }
    }
  }

  ghost predicate Descending<T>(ys: seq<T>, key: T -> int)
  {
    forall i, j :: 0 <= i < j < |ys| ==> key(ys[i]) >= key(ys[j])
  }

  lemma InsertDescending<T>(ys: seq<T>, key: T -> int, p: nat, x: T)
    requires Descending(ys, key) && p <= |ys|
    requires p > 0 ==> key(ys[p - 1]) >= key(x)
    requires forall i :: p <= i < |ys| ==> key(ys[i]) < key(x)
    ensures Descending(ys[..p] + [x] + ys[p..], key)
  {
  }

  method SortDescending<T>(xs: seq<T>, key: T -> int) returns (ys: seq<T>, ghost perm: seq<nat>)
    ensures Permutes(perm, |xs|) && |ys| == |xs|
    ensures forall i :: 0 <= i < |xs| ==> ys[i] == xs[perm[i]]
    ensures Descending(ys, key)
  {
    ys, perm := [], [];
    for n := 0 to |xs|
      invariant Permutes(perm, n) && |ys| == n
      invariant forall i :: 0 <= i < n ==> ys[i] == xs[perm[i]]
      invariant Descending(ys, key)
    {
      var p := n;
      while p > 0 && key(ys[p - 1]) < key(xs[n])
        invariant 0 <= p <= n
        invariant forall i :: p <= i < n ==> key(ys[i]) < key(xs[n])
      {
        p := p - 1;
      }
      InsertPermutes(perm, n, p);
      InsertDescending(ys, key, p, xs[n]);
      ys, perm := ys[..p] + [xs[n]] + ys[p..], perm[..p] + [n] + perm[p..];
    }
  }

  // ---------------------------------------------------------------- sort.SliceStable

  /** On these elements `less` is the strict part of a total preorder. */
  ghost predicate Ranks<T(!new)>(xs: seq<T>, less: (T, T) -> bool)
  {
    && (forall a, b :: a in xs && b in xs && less(a, b) ==> !less(b, a))
    && (forall a, b, c :: a in xs && b in xs && c in xs && !less(b, a) && !less(c, b) ==> !less(c, a))
  }

  ghost predicate Ordered<T>(ys: seq<T>, less: (T, T) -> bool)
  {
    forall i, j :: 0 <= i < j < |ys| ==> !less(ys[j], ys[i])
  }

  /** Elements that tie keep the order of their positions. */
  ghost predicate Stable<T>(ys: seq<T>, perm: seq<nat>, less: (T, T) -> bool)
  {
    |perm| == |ys| && forall i, j :: 0 <= i < j < |ys| && !less(ys[i], ys[j]) ==> perm[i] < perm[j]
  }

  lemma InsertOrdered<T(!new)>(xs: seq<T>, ys: seq<T>, less: (T, T) -> bool, p: nat, x: T)
    requires Ranks(xs, less) && Ordered(ys, less) && p <= |ys| && x in xs
    requires forall i :: 0 <= i < |ys| ==> ys[i] in xs
    requires p > 0 ==> !less(x, ys[p - 1])
    requires forall i :: p <= i < |ys| ==> less(x, ys[i])
    ensures Ordered(ys[..p] + [x] + ys[p..], less)
  {
    forall i | 0 <= i < p
      ensures !less(x, ys[i])
    {
      if i < p - 1 {
        assert !less(ys[p - 1], ys[i]);
      }
    }
  }

  lemma InsertStable<T>(ys: seq<T>, perm: seq<nat>, less: (T, T) -> bool, p: nat, x: T, n: nat)
    requires Stable(ys, perm, less) && p <= |ys|
    requires forall i :: 0 <= i < |perm| ==> perm[i] < n
    requires forall i :: p <= i < |ys| ==> less(x, ys[i])
    ensures Stable(ys[..p] + [x] + ys[p..], perm[..p] + [n] + perm[p..], less)
  {
  }

  /** perm tells where the elements come from. */
  ghost predicate Follows<T>(xs: seq<T>, ys: seq<T>, perm: seq<nat>)
  {
    |ys| == |perm| && forall i :: 0 <= i < |ys| ==> perm[i] < |xs| && ys[i] == xs[perm[i]]
  }

  lemma InsertFollows<T>(xs: seq<T>, ys: seq<T>, perm: seq<nat>, p: nat, n: nat)
    requires Follows(xs, ys, perm) && p <= |ys| && n < |xs| && multiset(ys) == multiset(xs[..n])
    ensures Follows(xs, ys[..p] + [xs[n]] + ys[p..], perm[..p] + [n] + perm[p..])
    ensures multiset(ys[..p] + [xs[n]] + ys[p..]) == multiset(xs[..n + 1])
  {
    assert ys == ys[..p] + ys[p..] && xs[..n + 1] == xs[..n] + [xs[n]];
  }

  lemma EmptyStable<T>(xs: seq<T>, less: (T, T) -> bool)
    ensures Ordered([], less) && Stable([], [], less) && Permutes([], 0) && Follows(xs, [], [])
  {
  }

  lemma PermutesBound(perm: seq<nat>, n: nat)
    requires Permutes(perm, n)
    ensures |perm| == n && forall i :: 0 <= i < n ==> perm[i] < n
  {
  }

  method StableSort<T(!new)>(xs: seq<T>, less: (T, T) -> bool) returns (ys: seq<T>, ghost perm: seq<nat>)
    requires Ranks(xs, less)
    ensures Permutes(perm, |xs|) && Follows(xs, ys, perm) && multiset(ys) == multiset(xs)
    ensures Ordered(ys, less) && Stable(ys, perm, less)
  {
    hide Ranks, Ordered, Stable, Permutes, Follows;
    ys, perm := [], [];
    EmptyStable(xs, less);
    for n := 0 to |xs|
      invariant Permutes(perm, n) && |ys| == n && Follows(xs, ys, perm)
      invariant multiset(ys) == multiset(xs[..n])
      invariant Ordered(ys, less) && Stable(ys, perm, less)
    {
      var p := n;
      while p > 0 && less(xs[n], ys[p - 1])
        invariant 0 <= p <= n
        invariant forall i :: p <= i < n ==> less(xs[n], ys[i])
      {
        p := p - 1;
      }
      PermutesBound(perm, n);
      InsertPermutes(perm, n, p);
      FromList(xs, ys, n);
      InsertOrdered(xs, ys, less, p, xs[n]);
      InsertStable(ys, perm, less, p, xs[n], n);
      InsertFollows(xs, ys, perm, p, n);
      ys, perm := ys[..p] + [xs[n]] + ys[p..], perm[..p] + [n] + perm[p..];
    }
    assert xs[..|xs|] == xs;
  }

  lemma FromList<T>(xs: seq<T>, ys: seq<T>, n: nat)
    requires n <= |xs| && multiset(ys) == multiset(xs[..n])
    ensures forall i :: 0 <= i < |ys| ==> ys[i] in xs
  {
    forall i | 0 <= i < |ys|
      ensures ys[i] in xs
    {
      assert ys[i] in multiset(ys);
      assert ys[i] in xs[..n];
    }
  }
}
