/** What several components share: optional values, Go's notion of white space, and lists of lists. */
module Basics {

  datatype Option<+T> = None | Some(value: T)

  /** unicode.IsSpace. */
  predicate IsSpace(c: char)
  {
    || '\t' <= c <= '\r' || c == ' ' || c == '\U{85}' || c == '\U{A0}' || c == '\U{1680}'
    || '\U{2000}' <= c <= '\U{200A}' || c == '\U{2028}' || c == '\U{2029}' || c == '\U{202F}'
    || c == '\U{205F}' || c == '\U{3000}'
  }

  // ---------------------------------------------------------------- strings.TrimSpace

  function TrimLeft(t: string): string
  {
    if t != "" && IsSpace(t[0]) then TrimLeft(t[1..]) else t
  }

  function TrimRight(t: string): string
  {
    if t != "" && IsSpace(t[|t| - 1]) then TrimRight(t[..|t| - 1]) else t
  }

  function TrimSpace(t: string): string
  {
    TrimRight(TrimLeft(t))
  }

  ghost predicate AllSpace(t: string)
  {
    forall i :: 0 <= i < |t| ==> IsSpace(t[i])
  }

  ghost predicate NoSpaceAround(t: string)
  {
    t != "" ==> !IsSpace(t[0]) && !IsSpace(t[|t| - 1])
  }

  lemma {:induction false} TrimLeftMeans(t: string) returns (a: string)
    ensures t == a + TrimLeft(t) && AllSpace(a) && (TrimLeft(t) != "" ==> !IsSpace(TrimLeft(t)[0]))
    decreases |t|
  {
    if t != "" && IsSpace(t[0]) {
      a := TrimLeftMeans(t[1..]);
      a := [t[0]] + a;
    } else {
      a := "";
    }
  }

  lemma {:induction false} TrimRightMeans(t: string) returns (b: string)
    ensures t == TrimRight(t) + b && AllSpace(b)
    ensures TrimRight(t) != "" ==> !IsSpace(TrimRight(t)[|TrimRight(t)| - 1]) && TrimRight(t)[0] == t[0]
    decreases |t|
  {
    if t != "" && IsSpace(t[|t| - 1]) {
      b := TrimRightMeans(t[..|t| - 1]);
      b := b + [t[|t| - 1]];
    } else {
      b := "";
    }
  }

  /** What is dropped is white space, and none is left at either end. */
  lemma TrimSpaceMeans(t: string) returns (a: string, b: string)
    ensures t == a + TrimSpace(t) + b && AllSpace(a) && AllSpace(b) && NoSpaceAround(TrimSpace(t))
  {
    hide TrimLeft, TrimRight;
    a := TrimLeftMeans(t);
    b := TrimRightMeans(TrimLeft(t));
  }

  // ---------------------------------------------------------------- lists of lists

  function Concat<T>(parts: seq<seq<T>>): seq<T>
  {
    if parts == [] then [] else Concat(parts[..|parts| - 1]) + parts[|parts| - 1]
  }

  lemma {:induction false} ConcatItems<T>(parts: seq<seq<T>>)
    ensures forall x :: x in Concat(parts) ==> exists k :: 0 <= k < |parts| && x in parts[k]
    decreases |parts|
  {
    if parts != [] {
      ConcatItems(parts[..|parts| - 1]);
    }
  }

  lemma {:induction false} PartInConcat<T>(parts: seq<seq<T>>, k: nat, x: T)
    requires k < |parts| && x in parts[k]
    ensures x in Concat(parts)
    decreases |parts|
  {
    if k < |parts| - 1 {
      PartInConcat(parts[..|parts| - 1], k, x);
    }
  }

  lemma NextPart<T>(parts: seq<seq<T>>)
    requires parts != []
    ensures Concat(parts) == Concat(parts[..|parts| - 1]) + parts[|parts| - 1]
  {
  }

  lemma {:induction false} ConcatAppend<T>(a: seq<seq<T>>, b: seq<seq<T>>)
    ensures Concat(a + b) == Concat(a) + Concat(b)
    decreases |b|
  {
    if b == [] {
      assert a + b == a;
    } else {
      var n := |b| - 1;
      assert (a + b)[..|a + b| - 1] == a + b[..n];
      ConcatAppend(a, b[..n]);
      NextPart(a + b);
      NextPart(b);
      hide Concat;
    }
  }
}
