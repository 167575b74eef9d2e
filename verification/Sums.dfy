/** Finite sums of reals over sets, in no particular order. */
module Sums {

  ghost function Sum<T(!new)>(s: set<T>, f: T -> real): real
  {
    if s == {} then 0.0 else var x :| x in s; f(x) + Sum(s - {x}, f)
  }

  // Rows and columns of a table, named so that equal ones are the same term.

  ghost function Row<T(!new)>(h: (T, T) -> real, i: T): T -> real
  {
    j => h(i, j)
  }

  ghost function Col<T(!new)>(h: (T, T) -> real, j: T): T -> real
  {
    i => h(i, j)
  }

  ghost function RowSums<T(!new)>(t: set<T>, h: (T, T) -> real): T -> real
  {
    i => Sum(t, Row(h, i))
  }

  ghost function ColSums<T(!new)>(s: set<T>, h: (T, T) -> real): T -> real
  {
    j => Sum(s, Col(h, j))
  }

  /** The sum of h(i, j) over all ordered pairs from s. */
  ghost function Sum2<T(!new)>(s: set<T>, h: (T, T) -> real): real
  {
    Sum(s, RowSums(s, h))
  }

  /** Any element may be taken out first. */
  lemma {:induction false} SumPick<T(!new)>(s: set<T>, f: T -> real, x: T)
    requires x in s
    ensures Sum(s, f) == f(x) + Sum(s - {x}, f)
    decreases |s|
  {
    var y :| y in s && Sum(s, f) == f(y) + Sum(s - {y}, f);
    if y != x {
      SumPick(s - {y}, f, x);
      SumPick(s - {x}, f, y);
      assert s - {y} - {x} == s - {x} - {y};
    }
  }

  lemma {:induction false} SumCong<T(!new)>(s: set<T>, f: T -> real, g: T -> real)
    requires forall x :: x in s ==> f(x) == g(x)
    ensures Sum(s, f) == Sum(s, g)
    decreases |s|
  {
    if s != {} {
      var x :| x in s;
      SumPick(s, f, x);
      SumPick(s, g, x);
      SumCong(s - {x}, f, g);
    }
  }

  lemma {:induction false} SumAdd<T(!new)>(s: set<T>, h: T -> real, f: T -> real, g: T -> real)
    requires forall x :: x in s ==> h(x) == f(x) + g(x)
    ensures Sum(s, h) == Sum(s, f) + Sum(s, g)
    decreases |s|
  {
    if s != {} {
      var x :| x in s;
      SumPick(s, h, x);
      SumPick(s, f, x);
      SumPick(s, g, x);
      SumAdd(s - {x}, h, f, g);
    }
  }

  ghost predicate AddsUp(m: real -> real, x: real, y: real)
  {
    m(x + y) == m(x) + m(y)
  }

  /** An additive map may be applied before or after summing. */
  lemma {:induction false} SumMap<T(!new)>(s: set<T>, h: T -> real, m: real -> real, f: T -> real)
    requires m(0.0) == 0.0 && forall x, y {:trigger AddsUp(m, x, y)} :: AddsUp(m, x, y)
    requires forall x :: x in s ==> h(x) == m(f(x))
    ensures Sum(s, h) == m(Sum(s, f))
    decreases |s|
  {
    if s != {} {
      var x :| x in s;
      SumPick(s, h, x);
      SumPick(s, f, x);
      SumMap(s - {x}, h, m, f);
      assert AddsUp(m, f(x), Sum(s - {x}, f));
    }
  }

  lemma {:induction false} SumZero<T(!new)>(s: set<T>, f: T -> real)
    requires forall x :: x in s ==> f(x) == 0.0
    ensures Sum(s, f) == 0.0
    decreases |s|
  {
    if s != {} {
      var x :| x in s;
      SumPick(s, f, x);
      SumZero(s - {x}, f);
    }
  }

  lemma {:induction false} SumAtLeast<T(!new)>(s: set<T>, f: T -> real, g: T -> real)
    requires forall x :: x in s ==> f(x) >= g(x)
    ensures Sum(s, f) >= Sum(s, g)
    decreases |s|
  {
    if s != {} {
      var x :| x in s;
      SumPick(s, f, x);
      SumPick(s, g, x);
      SumAtLeast(s - {x}, f, g);
    }
  }

  /** Changing a function at one point changes the sum by the difference there. */
  lemma SumPoint<T(!new)>(s: set<T>, f: T -> real, g: T -> real, x: T)
    requires x in s && forall y :: y in s && y != x ==> f(y) == g(y)
    ensures Sum(s, g) == Sum(s, f) + (g(x) - f(x))
  {
    SumPick(s, f, x);
    SumPick(s, g, x);
    SumCong(s - {x}, f, g);
  }

  /** The order of two summations does not matter. */
  lemma {:induction false} SumSwap<T(!new)>(s: set<T>, t: set<T>, h: (T, T) -> real)
    ensures Sum(s, RowSums(t, h)) == Sum(t, ColSums(s, h))
    decreases |s|
  {
    if s == {} {
      SumZero(t, ColSums(s, h));
    } else {
      var x :| x in s;
      SumSwap(s - {x}, t, h);
      SumPick(s, RowSums(t, h), x);
      ColSumsPick(s, t, h, x);
    }
  }

  lemma ColSumsPick<T(!new)>(s: set<T>, t: set<T>, h: (T, T) -> real, x: T)
    requires x in s
    ensures Sum(t, ColSums(s, h)) == Sum(t, Row(h, x)) + Sum(t, ColSums(s - {x}, h))
  {
    forall j | j in t
      ensures ColSums(s, h)(j) == Row(h, x)(j) + ColSums(s - {x}, h)(j)
    {
      SumPick(s, Col(h, j), x);
    }
    SumAdd(t, ColSums(s, h), Row(h, x), ColSums(s - {x}, h));
  }

  /** Taking one element out of a symmetric double sum. */
  lemma Sum2Split<T(!new)>(s: set<T>, h: (T, T) -> real, x: T)
    requires x in s && forall i, j :: i in s && j in s ==> h(i, j) == h(j, i)
    ensures Sum2(s, h) == h(x, x) + 2.0 * Sum(s - {x}, Row(h, x)) + Sum2(s - {x}, h)
  {
    var r := s - {x};
    SumPick(s, RowSums(s, h), x);
    SumPick(s, Row(h, x), x);
    forall i | i in r
      ensures RowSums(s, h)(i) == Row(h, x)(i) + RowSums(r, h)(i)
    {
      SumPick(s, Row(h, i), x);
    }
    SumAdd(r, RowSums(s, h), Row(h, x), RowSums(r, h));
  }

  lemma Sum2Cong<T(!new)>(s: set<T>, h: (T, T) -> real, k: (T, T) -> real)
    requires forall i, j :: i in s && j in s ==> h(i, j) == k(i, j)
    ensures Sum2(s, h) == Sum2(s, k)
  {
    forall i | i in s
      ensures RowSums(s, h)(i) == RowSums(s, k)(i)
    {
      SumCong(s, Row(h, i), Row(k, i));
    }
    SumCong(s, RowSums(s, h), RowSums(s, k));
  }

  lemma Sum2Add<T(!new)>(s: set<T>, h: (T, T) -> real, f: (T, T) -> real, g: (T, T) -> real)
    requires forall i, j :: i in s && j in s ==> h(i, j) == f(i, j) + g(i, j)
    ensures Sum2(s, h) == Sum2(s, f) + Sum2(s, g)
  {
    forall i | i in s
      ensures RowSums(s, h)(i) == RowSums(s, f)(i) + RowSums(s, g)(i)
    {
      SumAdd(s, Row(h, i), Row(f, i), Row(g, i));
    }
    SumAdd(s, RowSums(s, h), RowSums(s, f), RowSums(s, g));
  }

  /** Changing a table at one place changes its double sum by the difference there. */
  lemma Sum2Point<T(!new)>(s: set<T>, f: (T, T) -> real, g: (T, T) -> real, x: T, y: T)
    requires x in s && y in s
    requires forall i, j :: i in s && j in s && (i != x || j != y) ==> f(i, j) == g(i, j)
    ensures Sum2(s, g) == Sum2(s, f) + (g(x, y) - f(x, y))
  {
    forall i | i in s && i != x
      ensures RowSums(s, f)(i) == RowSums(s, g)(i)
    {
      SumCong(s, Row(f, i), Row(g, i));
    }
    SumPoint(s, Row(f, x), Row(g, x), y);
    SumPoint(s, RowSums(s, f), RowSums(s, g), x);
  }
}
