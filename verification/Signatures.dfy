/** internal/analysis/contracts.go: taking a function signature apart at its brackets. */
module Signatures {

  // ---------------------------------------------------------------- splitting at outer commas

  function Bracket(c: char): int
  {
    if c == '(' || c == '[' || c == '{' then 1
    else if c == ')' || c == ']' || c == '}' then -1
    else 0
  }

  /** How many brackets are open at the end of the text; more closed than opened counts as negative. */
  function Depth(s: string): int
  {
    if s == "" then 0 else Depth(s[..|s| - 1]) + Bracket(s[|s| - 1])
  }

  function Join(parts: seq<string>): string
  {
    if parts == [] then ""
    else if |parts| == 1 then parts[0]
    else Join(parts[..|parts| - 1]) + "," + parts[|parts| - 1]
  }

  /** No comma of the text stands outside all brackets. */
  ghost predicate NoOuterComma(s: string)
  {
    forall j :: 0 <= j < |s| && s[j] == ',' ==> Depth(s[..j]) != 0
  }

  /** The pieces make up the text again, are cut at every outer comma, and at no other place. */
  ghost predicate IsSplit(s: string, parts: seq<string>)
  {
    && parts != []
    && Join(parts) == s
    && (forall k :: 0 <= k < |parts| ==> NoOuterComma(parts[k]))
    && (forall k :: 0 <= k < |parts| - 1 ==> Depth(parts[k]) == 0)
  }

  lemma {:induction false} DepthAppend(a: string, b: string)
    ensures Depth(a + b) == Depth(a) + Depth(b)
    decreases |b|
  {
    if b == "" {
      assert a + b == a;
    } else {
      var n := |b| - 1;
      assert (a + b)[..|a + b| - 1] == a + b[..n];
      DepthAppend(a, b[..n]);
    }
  }

  /** The pieces so far, up to start, and the piece being read, up to i. */
  ghost predicate Splitting(s: string, parts: seq<string>, start: int, i: int)
  {
    && 0 <= start <= i <= |s|
    && s[..start] == (if parts == [] then "" else Join(parts) + ",")
    && (forall k :: 0 <= k < |parts| ==> NoOuterComma(parts[k]) && Depth(parts[k]) == 0)
    && NoOuterComma(s[start..i])
  }

  lemma ReadOn(s: string, parts: seq<string>, start: int, i: int)
    requires Splitting(s, parts, start, i) && i < |s| && (s[i] != ',' || Depth(s[start..i]) != 0)
    ensures Splitting(s, parts, start, i + 1) && Depth(s[start..i + 1]) == Depth(s[start..i]) + Bracket(s[i])
  {
    NextChar(s[start..i], s[i]);
    assert s[start..i + 1] == s[start..i] + [s[i]];
    hide Join, NoOuterComma, Depth;
  }

  lemma CutHere(s: string, parts: seq<string>, start: int, i: int)
    requires Splitting(s, parts, start, i) && i < |s| && s[i] == ',' && Depth(s[start..i]) == 0
    ensures Splitting(s, parts + [s[start..i]], i + 1, i + 1)
  {
    var piece := s[start..i];
    JoinNext(parts, piece);
    hide Join;
    assert s[..i + 1] == s[..start] + piece + ",";
    assert s[i + 1..i + 1] == "";
    hide Depth;
  }

  lemma LastPiece(s: string, parts: seq<string>, start: int)
    requires Splitting(s, parts, start, |s|)
    ensures IsSplit(s, parts + [s[start..]])
  {
    JoinNext(parts, s[start..]);
    hide Join, Depth, NoOuterComma;
    assert s == s[..start] + s[start..];
    assert s[start..|s|] == s[start..];
  }

  method SplitParams(s: string) returns (parts: seq<string>)
    ensures IsSplit(s, parts)
  {
    hide IsSplit, NoOuterComma, Join;
    parts := [];
    var depth, start := 0, 0;
    Opening(s);
    for i := 0 to |s|
      invariant Splitting(s, parts, start, i) && depth == Depth(s[start..i])
    {
      if s[i] != ',' || depth != 0 {
        ReadOn(s, parts, start, i);
      } else {
        CutHere(s, parts, start, i);
        assert s[i + 1..i + 1] == "";
      }
      hide Splitting;
      if s[i] == '(' || s[i] == '[' || s[i] == '{' {
        depth := depth + 1;
      } else if s[i] == ')' || s[i] == ']' || s[i] == '}' {
        depth := depth - 1;
      } else if s[i] == ',' {
        if depth == 0 {
          parts := parts + [s[start..i]];
          start := i + 1;
        }
      }
    }
    LastPiece(s, parts, start);
    parts := parts + [s[start..]];
  }

  lemma Opening(s: string)
    ensures Splitting(s, [], 0, 0)
  {
  }

  lemma NextChar(piece: string, c: char)
    requires NoOuterComma(piece)
    ensures Depth(piece + [c]) == Depth(piece) + Bracket(c)
    ensures c != ',' || Depth(piece) != 0 ==> NoOuterComma(piece + [c])
  {
    var more := piece + [c];
    assert more[..|more| - 1] == piece;
    forall j | 0 <= j < |more| && more[j] == ',' && (c != ',' || Depth(piece) != 0)
      ensures Depth(more[..j]) != 0
    {
      assert more[..j] == piece[..j];
      assert j == |piece| ==> more[..j] == piece;
    }
  }

  lemma JoinNext(parts: seq<string>, piece: string)
    ensures Join(parts + [piece]) == if parts == [] then piece else Join(parts) + "," + piece
  {
    assert (parts + [piece])[..|parts|] == parts;
  }

  lemma {:induction false} JoinFirst(parts: seq<string>)
    requires |parts| > 1
    ensures Join(parts) == parts[0] + "," + Join(parts[1..])
    decreases |parts|
  {
    var n := |parts| - 1;
    if n > 1 {
      JoinFirst(parts[..n]);
      assert parts[..n][1..] == parts[1..][..n - 1];
    } else {
      assert parts[..n] == [parts[0]] && parts[1..] == [parts[1]];
    }
  }

  /** The first piece of one split is no shorter than that of another. */
  lemma SameFirstPiece(s: string, parts: seq<string>, others: seq<string>)
    requires IsSplit(s, parts) && IsSplit(s, others)
    ensures |others[0]| <= |parts[0]|
  {
    if |parts| > 1 {
      JoinFirst(parts);
    }
    if |others| > 1 {
      JoinFirst(others);
    }
    var a, b := parts[0], others[0];
    assert a <= s && b <= s;
    assert |a| <= |b| ==> b[..|a|] == a;
    assert |a| < |s| ==> s[|a|] == ',';
    assert forall i :: 0 <= i < |b| ==> s[i] == b[i];
  }

  /** Only one list of pieces fits, so the split is determined by what it promises. */
  lemma {:induction false} SplitUnique(s: string, parts: seq<string>, others: seq<string>)
    requires IsSplit(s, parts) && IsSplit(s, others)
    ensures parts == others
    decreases |parts|
  {
    SameFirstPiece(s, parts, others);
    SameFirstPiece(s, others, parts);
    if |parts| > 1 {
      JoinFirst(parts);
    }
    if |others| > 1 {
      JoinFirst(others);
    }
    var n := |parts[0]|;
    assert parts[0] == s[..n] == others[0];
    if |parts| > 1 && |others| > 1 {
      assert Join(parts[1..]) == s[n + 1..] == Join(others[1..]);
      SplitUnique(s[n + 1..], parts[1..], others[1..]);
      assert parts == [parts[0]] + parts[1..] && others == [others[0]] + others[1..];
    } else {
      assert |parts| == 1 <==> n == |s|;
      assert |others| == 1 <==> n == |s|;
    }
  }

  // ---------------------------------------------------------------- the first pair of parentheses

  function Paren(c: char): int
  {
    if c == '(' then 1 else if c == ')' then -1 else 0
  }

  function ParenDepth(s: string): int
  {
    if s == "" then 0 else ParenDepth(s[..|s| - 1]) + Paren(s[|s| - 1])
  }

  /** No parenthesis is closed that was not opened in the text. */
  ghost predicate NeverBelow(s: string)
  {
    forall j :: 0 <= j <= |s| ==> ParenDepth(s[..j]) >= 0
  }

  ghost predicate Balanced(s: string)
  {
    NeverBelow(s) && ParenDepth(s) == 0
  }

  /** s is prefix, parenthesis, balanced content, parenthesis, rest. */
  ghost predicate Closes(s: string, prefix: string, content: string, rest: string)
  {
    s == prefix + "(" + content + ")" + rest && '(' !in prefix && Balanced(content)
  }

  /** The first parenthesis is never closed. */
  ghost predicate StaysOpen(s: string, prefix: string, content: string)
  {
    s == prefix + "(" + content && '(' !in prefix && NeverBelow(content)
  }

  /** strings.IndexByte(s, '('), or the length if there is none. */
  method FirstOpen(s: string) returns (start: nat)
    ensures start <= |s| && '(' !in s[..start] && (start < |s| ==> s[start] == '(')
  {
    start := 0;
    while start < |s| && s[start] != '('
      invariant 0 <= start <= |s| && '(' !in s[..start]
    {
      assert s[..start + 1] == s[..start] + [s[start]];
      start := start + 1;
    }
  }

  method ExtractBalancedParens(s: string) returns (content: string, rest: string, ghost prefix: string)
    ensures '(' !in s ==> content == "" && rest == s
    ensures '(' in s ==> Closes(s, prefix, content, rest) || (StaysOpen(s, prefix, content) && rest == "")
  {
    hide NeverBelow, ParenDepth;
    var start := FirstOpen(s);
    prefix := s[..start];
    if start == |s| {
      assert s[..start] == s;
      return "", s, prefix;
    }
    var depth := 0;
    EmptyParens();
    for i := start to |s|
      invariant i == start ==> depth == 0
      invariant i > start ==> depth == 1 + ParenDepth(s[start + 1..i]) && NeverBelow(s[start + 1..i]) && depth > 0
    {
      if i > start {
        OneFurther(s[start + 1..i], s[i]);
        assert s[start + 1..i] + [s[i]] == s[start + 1..i + 1];
      } else {
        assert s[start + 1..i + 1] == "";
      }
      if s[i] == '(' {
        depth := depth + 1;
      } else if s[i] == ')' {
        depth := depth - 1;
        if depth == 0 {
          content, rest := s[start + 1..i], s[i + 1..];
          assert s == prefix + "(" + content + ")" + rest;
          return;
        }
      }
    }
    content, rest := s[start + 1..], "";
    assert s[start + 1..|s|] == content;
    assert s == prefix + "(" + content;
  }

  lemma EmptyParens()
    ensures ParenDepth("") == 0 && NeverBelow("")
  {
  }

  lemma OneFurther(t: string, c: char)
    requires NeverBelow(t)
    ensures ParenDepth(t + [c]) == ParenDepth(t) + Paren(c)
    ensures ParenDepth(t + [c]) >= 0 ==> NeverBelow(t + [c])
  {
    var more := t + [c];
    assert more[..|t|] == t;
    forall j | 0 <= j <= |more| && ParenDepth(more) >= 0
      ensures ParenDepth(more[..j]) >= 0
    {
      if j <= |t| {
        assert more[..j] == t[..j];
      } else {
        assert more[..j] == more;
      }
    }
  }

  lemma SamePrefix(s: string, a: string, b: string)
    requires '(' !in a && '(' !in b && a + "(" <= s && b + "(" <= s
    ensures a == b
  {
    assert s[|a|] == (a + "(")[|a|] == '(' && s[|b|] == (b + "(")[|b|] == '(';
    assert a == s[..|a|] && b == s[..|b|];
    assert forall i :: 0 <= i < |a| ==> s[i] == a[i];
    assert forall i :: 0 <= i < |b| ==> s[i] == b[i];
  }

  /** A balanced text followed by a closing parenthesis falls below zero there. */
  lemma FallsBelow(c: string, t: string)
    requires ParenDepth(c) == 0 && c + ")" <= t
    ensures !NeverBelow(t)
  {
    assert t[..|c| + 1] == c + ")";
    assert (c + ")")[..|c|] == c;
    assert ParenDepth(t[..|c| + 1]) < 0;
  }

  /** Two ways to close the first parenthesis: neither content is shorter. */
  lemma SameContent(tail: string, c: string, c': string)
    requires c + ")" <= tail && c' <= tail && ParenDepth(c) == 0 && NeverBelow(c')
    ensures |c'| <= |c|
  {
    if |c| < |c'| {
      assert c + ")" == tail[..|c| + 1] && c' == tail[..|c'|];
      assert c + ")" <= c' by {
        assert c'[..|c| + 1] == c + ")";
      }
      FallsBelow(c, c');
    }
  }

  /** The place where the first parenthesis closes is unique, and if there is one it does not stay open. */
  lemma ClosesUnique(s: string, p: string, c: string, r: string, p': string, c': string, r': string)
    requires Closes(s, p, c, r)
    ensures Closes(s, p', c', r') ==> p == p' && c == c' && r == r'
    ensures !StaysOpen(s, p', c')
  {
    hide NeverBelow, ParenDepth;
    var tail := s[|p| + 1..];
    assert tail == c + ")" + r;
    if StaysOpen(s, p', c') {
      SamePrefix(s, p, p');
      assert c' == tail;
      SameContent(tail, c, c');
    }
    if Closes(s, p', c', r') {
      SamePrefix(s, p, p');
      assert tail == c' + ")" + r';
      SameContent(tail, c, c');
      SameContent(tail, c', c);
      assert c == tail[..|c|] && c' == tail[..|c'|];
      assert r == tail[|c| + 1..] && r' == tail[|c'| + 1..];
    }
  }
}
