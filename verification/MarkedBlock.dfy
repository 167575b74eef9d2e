/** internal/agents/instructions.go, UpsertMarkedBlock: the text transformation that regenerates
    a fenced block inside a file someone else also edits. File I/O is left out; a missing file is
    None. */
module MarkedBlock {
  import opened Basics

  const START_MARKER := "<!-- gortex:communities:start -->"
  const END_MARKER := "<!-- gortex:communities:end -->"

  // ---------------------------------------------------------------- substrings

  /** m occurs in s at position i. */
  predicate OccursAt(s: string, m: string, i: int)
  {
    0 <= i <= |s| - |m| && s[i..i + |m|] == m
  }

  predicate Contains(s: string, m: string)
  {
    exists i :: 0 <= i <= |s| && OccursAt(s, m, i)
  }

  /** strings.Index: the first occurrence, or -1. */
  function IndexFrom(s: string, m: string, i: nat): int
    requires i <= |s|
    decreases |s| - i
  {
    if OccursAt(s, m, i) then i else if i == |s| then -1 else IndexFrom(s, m, i + 1)
  }

  function Index(s: string, m: string): int
  {
    IndexFrom(s, m, 0)
  }

  ghost predicate FirstAt(s: string, m: string, i: int)
  {
    OccursAt(s, m, i) && forall j :: 0 <= j < i ==> !OccursAt(s, m, j)
  }

  lemma {:induction false} IndexFromFirst(s: string, m: string, i: nat)
    requires i <= |s|
    ensures var r := IndexFrom(s, m, i);
      if r < 0 then r == -1 && forall j :: i <= j ==> !OccursAt(s, m, j)
      else i <= r && OccursAt(s, m, r) && forall j :: i <= j < r ==> !OccursAt(s, m, j)
    decreases |s| - i
  {
    if !OccursAt(s, m, i) && i < |s| {
      IndexFromFirst(s, m, i + 1);
    }
  }

  lemma IndexFirst(s: string, m: string)
    ensures Contains(s, m) <==> Index(s, m) >= 0
    ensures Contains(s, m) ==> FirstAt(s, m, Index(s, m))
  {
    IndexFromFirst(s, m, 0);
  }

  lemma FirstIsIndex(s: string, m: string, i: int)
    requires FirstAt(s, m, i)
    ensures Contains(s, m) && Index(s, m) == i
  {
    IndexFromFirst(s, m, 0);
  }

  // ---------------------------------------------------------------- the transformation

  /** strings.TrimSpace(body) == "". */
  predicate Blank(body: string)
  {
    forall i :: 0 <= i < |body| ==> IsSpace(body[i])
  }

  lemma BlankMeans(body: string)
    ensures Blank(body) <==> TrimSpace(body) == ""
  {
    var a, b := TrimSpaceMeans(body);
    hide TrimSpace, IsSpace;
    var r := TrimSpace(body);
    assert r != "" ==> body[|a|] == r[0];
    assert r == "" ==> body == a + b;
  }

  function Fence(body: string, s: string, e: string): string
  {
    s + "\n" + body + "\n" + e + "\n"
  }

  predicate HasBlock(text: string, s: string, e: string)
  {
    Contains(text, s) && Contains(text, e)
  }

  /** One past the end marker and the newline that follows it. */
  function BlockEnd(text: string, e: string): int
  {
    var end := Index(text, e) + |e|;
    if 0 <= end < |text| && text[end] == '\n' then end + 1 else end
  }

  /** Blank lines that set the appended block apart from existing text. */
  function Gap(text: string): string
  {
    if text == "" then ""
    else if text[|text| - 1] != '\n' then "\n\n"
    else if |text| < 2 || text[|text| - 2] != '\n' then "\n"
    else ""
  }

  ghost predicate EndsInBlankLine(t: string)
  {
    |t| >= 2 && t[|t| - 2] == '\n' && t[|t| - 1] == '\n'
  }

  ghost predicate OnlyNewlines(g: string)
  {
    forall i :: 0 <= i < |g| ==> g[i] == '\n'
  }

  /** A new block is set apart by a blank line ... */
  lemma GapSetsApart(t: string)
    ensures t == "" ==> Gap(t) == ""
    ensures t != "" ==> EndsInBlankLine(t + Gap(t)) && OnlyNewlines(Gap(t))
  {
  }

  /** ... with no more newlines than that takes. */
  lemma GapIsShortest(t: string, g: string)
    requires EndsInBlankLine(t + g) && OnlyNewlines(g)
    ensures |Gap(t)| <= |g|
  {
    var u := t + g;
    if |g| == 0 {
      assert u == t;
    } else if |g| == 1 {
      assert t != "" ==> u[|u| - 2] == t[|t| - 1];
    }
  }

  lemma IndexBounds(text: string, e: string)
    requires Contains(text, e)
    ensures 0 <= Index(text, e) && Index(text, e) + |e| <= |text|
  {
    IndexFirst(text, e);
  }

  /** The file's text after the update; None when the file is absent and stays so. */
  function Upsert(existing: Option<string>, body: string, s: string, e: string): Option<string>
  {
    var text := if existing.Some? then existing.value else "";
    var hasBlock := existing.Some? && HasBlock(text, s, e);
    if Blank(body) && !hasBlock then existing
    else if hasBlock then
      IndexBounds(text, s);
      IndexBounds(text, e);
      var start, end := Index(text, s), BlockEnd(text, e);
      if Blank(body) then Some(text[..start] + text[end..])
      else Some(text[..start] + Fence(body, s, e) + text[end..])
    else Some(text + Gap(text) + Fence(body, s, e))
  }

  // ---------------------------------------------------------------- why markers can be found again

  /** '<' opens a marker and occurs nowhere else in it. */
  ghost predicate Marker(m: string)
  {
    m != "" && m[0] == '<' && (forall i :: 0 < i < |m| ==> m[i] != '<') && '\n' !in m
  }

  ghost predicate Markers(s: string, e: string)
  {
    Marker(s) && Marker(e) && !(s <= e) && !(e <= s)
  }

  /** The markers the program uses have these properties. */
  lemma CommunityMarkers()
    ensures Markers(START_MARKER, END_MARKER)
  {
    assert START_MARKER[24] == 's' && END_MARKER[24] == 'e';
  }

  lemma OccursChar(t: string, m: string, p: int, i: int)
    requires OccursAt(t, m, p) && 0 <= i < |m|
    ensures t[p + i] == m[i]
  {
    assert t[p..p + |m|][i] == t[p + i];
  }

  /** Two occurrences of markers never overlap. */
  lemma NoOverlap(t: string, m: string, n: string, p: int, q: int)
    requires Marker(m) && Marker(n) && OccursAt(t, m, p) && OccursAt(t, n, q) && p < q
    ensures p + |m| <= q
  {
    OccursChar(t, n, q, 0);
    if q < p + |m| {
      OccursChar(t, m, p, q - p);
    }
  }

  lemma SamePlace(t: string, m: string, n: string, p: int)
    requires OccursAt(t, m, p) && OccursAt(t, n, p)
    ensures m <= n || n <= m
  {
    if |m| <= |n| {
      assert t[p..p + |n|][..|m|] == t[p..p + |m|];
    } else {
      assert t[p..p + |m|][..|n|] == t[p..p + |n|];
    }
  }

  /** An occurrence does not reach across a newline. */
  lemma WithinLine(t: string, m: string, p: int, k: int)
    requires Marker(m) && OccursAt(t, m, p) && 0 <= k < |t| && t[k] == '\n'
    ensures p + |m| <= k || k < p
  {
    if p <= k < p + |m| {
      OccursChar(t, m, p, k - p);
    }
  }

  lemma OccursInPart(a: string, b: string, m: string, p: int)
    requires 0 <= p && p + |m| <= |a|
    ensures OccursAt(a + b, m, p) <==> OccursAt(a, m, p)
  {
    assert (a + b)[p..p + |m|] == a[p..p + |m|];
  }

  lemma OccursShifted(a: string, b: string, m: string, p: int)
    requires |a| <= p
    ensures OccursAt(a + b, m, p) <==> OccursAt(b, m, p - |a|)
  {
    if p + |m| <= |a + b| {
      assert (a + b)[p..p + |m|] == b[p - |a|..p - |a| + |m|];
    }
  }

  ghost predicate Free(t: string, s: string, e: string)
  {
    !Contains(t, s) && !Contains(t, e)
  }

  /** Where the end marker of the fence stands. */
  function FenceEnd(a: string, body: string, s: string): int
  {
    |a| + |s| + |body| + 2
  }

  /** The fence's own markers are where they were put. */
  lemma FencePlaces(a: string, body: string, r: string, s: string, e: string)
    ensures var t := a + Fence(body, s, e) + r;
      && OccursAt(t, s, |a|) && OccursAt(t, e, FenceEnd(a, body, s))
      && FenceEnd(a, body, s) + |e| < |t| && t[FenceEnd(a, body, s) + |e|] == '\n'
      && t[|a| + |s|] == '\n' && t[FenceEnd(a, body, s) - 1] == '\n'
  {
    var t := a + Fence(body, s, e) + r;
    var head := a + s + "\n" + body + "\n";
    assert t == head + (e + "\n" + r);
    assert t[|a|..|a| + |s|] == s;
    assert t[|head|..|head| + |e|] == e;
  }

  /** An end marker after the start marker and before the last newline of the body is in the body. */
  lemma InsideBody(a: string, body: string, r: string, s: string, e: string, j: int)
    requires |a| + |s| < j && j + |e| < FenceEnd(a, body, s) && OccursAt(a + Fence(body, s, e) + r, e, j)
    ensures Contains(body, e)
  {
    var head, rest := a + s + "\n", "\n" + e + "\n" + r;
    assert a + Fence(body, s, e) + r == head + (body + rest);
    hide Fence;
    OccursShifted(head, body + rest, e, j);
    OccursInPart(body, rest, e, j - |head|);
  }

  /** No end marker starts between the fence's start marker and its end marker. */
  lemma NoneInside(a: string, body: string, r: string, s: string, e: string, j: int)
    requires Markers(s, e) && Free(body, s, e) && |a| <= j < FenceEnd(a, body, s)
    ensures !OccursAt(a + Fence(body, s, e) + r, e, j)
  {
    FencePlaces(a, body, r, s, e);
    hide Fence, Contains;
    var t := a + Fence(body, s, e) + r;
    if OccursAt(t, e, j) {
      OccursChar(t, e, j, 0);
      if j == |a| {
        SamePlace(t, s, e, j);
      } else {
        NoOverlap(t, s, e, |a|, j);
        WithinLine(t, e, j, |a| + |s|);
        WithinLine(t, e, j, FenceEnd(a, body, s) - 1);
        InsideBody(a, body, r, s, e, j);
      }
    }
  }

  /** A start marker alone may stand in front: the fence's end marker is still the first one. */
  lemma FirstEnd(a: string, body: string, r: string, s: string, e: string)
    requires Markers(s, e) && Free(body, s, e) && !Contains(a, e)
    ensures FirstAt(a + Fence(body, s, e) + r, e, FenceEnd(a, body, s))
  {
    hide Fence, Contains;
    var t, b := a + Fence(body, s, e) + r, Fence(body, s, e) + r;
    FencePlaces(a, body, r, s, e);
    assert t == a + b;
    forall j | 0 <= j < FenceEnd(a, body, s)
      ensures !OccursAt(t, e, j)
    {
      if j < |a| {
        NoneBefore(a, b, s, e, j);
      } else {
        NoneInside(a, body, r, s, e, j);
      }
    }
  }

  /** In a + Fence(body) + r the markers of the fence are the first ones, if a and body have none. */
  lemma FirstMarkers(a: string, body: string, r: string, s: string, e: string)
    requires Markers(s, e) && Free(body, s, e) && !Contains(a, s)
    ensures FirstAt(a + Fence(body, s, e) + r, s, |a|)
    ensures !Contains(a, e) ==> FirstAt(a + Fence(body, s, e) + r, e, FenceEnd(a, body, s))
  {
    hide Fence, Contains;
    var t, b := a + Fence(body, s, e) + r, Fence(body, s, e) + r;
    FencePlaces(a, body, r, s, e);
    assert t == a + b;
    forall j | 0 <= j < |a|
      ensures !OccursAt(t, s, j)
    {
      NoneBefore(a, b, s, s, j);
    }
    if !Contains(a, e) {
      FirstEnd(a, body, r, s, e);
    }
  }

  lemma NoneBefore(a: string, b: string, s: string, m: string, j: int)
    requires Marker(s) && Marker(m) && OccursAt(a + b, s, |a|) && 0 <= j < |a| && !Contains(a, m)
    ensures !OccursAt(a + b, m, j)
  {
    if OccursAt(a + b, m, j) {
      NoOverlap(a + b, m, s, j, |a|);
      OccursInPart(a, b, m, j);
    }
  }

  // ---------------------------------------------------------------- regenerating the block

  /** A block in good order is replaced in place: what is around it stays, byte for byte. */
  lemma Replaces(a: string, body: string, r: string, next: string, s: string, e: string)
    requires Markers(s, e) && Free(body, s, e) && Free(a, s, e) && !Blank(next)
    ensures Upsert(Some(a + Fence(body, s, e) + r), next, s, e) == Some(a + Fence(next, s, e) + r)
  {
    hide Fence;
    var t := a + Fence(body, s, e) + r;
    FencePlaces(a, body, r, s, e);
    FirstMarkers(a, body, r, s, e);
    FirstIsIndex(t, s, |a|);
    FirstIsIndex(t, e, FenceEnd(a, body, s));
    FenceLength(body, s, e);
    assert t[..|a|] == a;
    assert t[|a + Fence(body, s, e)|..] == r;
  }

  /** A blank body removes the block and leaves the rest. */
  lemma BlankRemoves(a: string, body: string, r: string, blank: string, s: string, e: string)
    requires Markers(s, e) && Free(body, s, e) && Free(a, s, e) && Blank(blank)
    ensures Upsert(Some(a + Fence(body, s, e) + r), blank, s, e) == Some(a + r)
  {
    hide Fence;
    var t := a + Fence(body, s, e) + r;
    FencePlaces(a, body, r, s, e);
    FirstMarkers(a, body, r, s, e);
    FirstIsIndex(t, s, |a|);
    FirstIsIndex(t, e, FenceEnd(a, body, s));
    FenceLength(body, s, e);
    assert t[..|a|] == a;
    assert t[|a + Fence(body, s, e)|..] == r;
  }

  lemma FenceLength(body: string, s: string, e: string)
    ensures |Fence(body, s, e)| == |s| + |body| + |e| + 3
  {
  }

  /** No markers at all, or the first start marker before the first end marker. */
  ghost predicate InOrder(t: string, s: string, e: string)
  {
    Free(t, s, e) || (HasBlock(t, s, e) && Index(t, s) < Index(t, e))
  }

  /** Appending newlines to marker-free text creates no marker. */
  lemma GapFree(t: string, m: string)
    requires Marker(m) && !Contains(t, m)
    ensures !Contains(t + Gap(t), m)
  {
    var u := t + Gap(t);
    forall j
      ensures !OccursAt(u, m, j)
    {
      if OccursAt(u, m, j) {
        OccursChar(u, m, j, 0);
        if Gap(t) != "" {
          WithinLine(u, m, j, |t|);
        }
        OccursInPart(t, Gap(t), m, j);
      }
    }
  }

  /** Text before the first occurrence of a marker has none. */
  lemma BeforeFirst(t: string, m: string, n: int)
    requires m != "" && 0 <= n <= |t|
    requires forall j :: 0 <= j < n ==> !OccursAt(t, m, j)
    ensures !Contains(t[..n], m)
  {
    forall j
      ensures !OccursAt(t[..n], m, j)
    {
      if OccursAt(t[..n], m, j) {
        assert t[..n] + t[n..] == t;
        OccursInPart(t[..n], t[n..], m, j);
      }
    }
  }

  /** The text kept before the block, and after it. */
  function Before(t: string, s: string, e: string): string
  {
    if HasBlock(t, s, e) then IndexBounds(t, s); t[..Index(t, s)] else t + Gap(t)
  }

  function Behind(t: string, s: string, e: string): string
  {
    if HasBlock(t, s, e) then IndexBounds(t, e); t[BlockEnd(t, e)..] else ""
  }

  lemma UpsertForm(t: string, body: string, s: string, e: string)
    requires !Blank(body)
    ensures Upsert(Some(t), body, s, e) == Some(Before(t, s, e) + Fence(body, s, e) + Behind(t, s, e))
  {
    hide Fence, Blank, Gap;
    if !HasBlock(t, s, e) {
      assert t + Gap(t) + Fence(body, s, e) + "" == t + Gap(t) + Fence(body, s, e);
    }
  }

  lemma BeforeFree(t: string, s: string, e: string)
    requires Markers(s, e) && InOrder(t, s, e)
    ensures Free(Before(t, s, e), s, e)
  {
    hide Gap;
    if HasBlock(t, s, e) {
      IndexFirst(t, s);
      IndexFirst(t, e);
      BeforeFirst(t, s, Index(t, s));
      BeforeFirst(t, e, Index(t, s));
    } else {
      GapFree(t, s);
      GapFree(t, e);
    }
  }

  /** A blank body removes the block, wherever its markers stand; without a block nothing happens. */
  lemma RemovalForm(t: string, blank: string, s: string, e: string)
    requires Blank(blank)
    ensures Upsert(Some(t), blank, s, e) == Some(if HasBlock(t, s, e) then Before(t, s, e) + Behind(t, s, e) else t)
  {
  }

  /** Writing `second` after `first` is writing `second` alone, when neither is blank. With equal
      bodies, a second run changes nothing. */
  lemma RewriteWins(t: string, first: string, second: string, s: string, e: string)
    requires Markers(s, e) && InOrder(t, s, e)
    requires !Blank(first) && !Blank(second) && Free(first, s, e)
    ensures Upsert(Upsert(Some(t), first, s, e), second, s, e) == Upsert(Some(t), second, s, e)
  {
    hide Fence, Blank, Before, Behind, Upsert, Free;
    UpsertForm(t, first, s, e);
    UpsertForm(t, second, s, e);
    BeforeFree(t, s, e);
    Replaces(Before(t, s, e), first, Behind(t, s, e), second, s, e);
  }

  /** Writing and then removing is removing, except that the blank lines in front of a new block stay. */
  lemma WriteThenRemove(t: string, first: string, blank: string, s: string, e: string)
    requires Markers(s, e) && InOrder(t, s, e)
    requires !Blank(first) && Blank(blank) && Free(first, s, e)
    ensures Upsert(Upsert(Some(t), first, s, e), blank, s, e) == Upsert(Some(t), blank, s, e) <==>
      HasBlock(t, s, e) || Gap(t) == ""
  {
    hide Fence, Blank, Upsert, Free, Gap, HasBlock;
    UpsertForm(t, first, s, e);
    RemovalForm(t, blank, s, e);
    BeforeFree(t, s, e);
    BlankRemoves(Before(t, s, e), first, Behind(t, s, e), blank, s, e);
    assert t + Gap(t) + "" == t + Gap(t);
    assert Gap(t) == "" ==> t + Gap(t) == t;
  }

  /** Where the block lands depends on where the first start marker, or the first end marker, is. */
  lemma SamePlacement(a: string, r: string, b: string, q: string, body: string, s: string, e: string)
    requires Markers(s, e) && Free(body, s, e) && Free(b, s, e)
    requires !Contains(a, s) || !Contains(a, e)
    requires a + Fence(body, s, e) + r == b + Fence(body, s, e) + q
    ensures |a| == |b|
  {
    hide Fence, Contains;
    FirstMarkers(b, body, q, s, e);
    var t := a + Fence(body, s, e) + r;
    FirstIsIndex(t, s, |b|);
    FirstIsIndex(t, e, FenceEnd(b, body, s));
    if !Contains(a, s) {
      FirstMarkers(a, body, r, s, e);
      FirstIsIndex(t, s, |a|);
    } else {
      FirstEnd(a, body, r, s, e);
      FirstIsIndex(t, e, FenceEnd(a, body, s));
    }
  }

  /** Removing and then writing puts the block at the end, set apart by a gap. So it is the same as
      writing exactly when there was no block, or the block ended the file and needs no gap. */
  lemma RemoveThenWrite(t: string, blank: string, second: string, s: string, e: string)
    requires Markers(s, e) && InOrder(t, s, e)
    requires Blank(blank) && !Blank(second) && Free(second, s, e)
    ensures Upsert(Upsert(Some(t), blank, s, e), second, s, e) == Upsert(Some(t), second, s, e) <==>
      !HasBlock(t, s, e) || (Behind(t, s, e) == "" && Gap(Before(t, s, e)) == "")
  {
    hide Fence, Blank, Upsert, Gap, Contains;
    RemovalForm(t, blank, s, e);
    if HasBlock(t, s, e) {
      var b, q := Before(t, s, e), Behind(t, s, e);
      var u := b + q;
      BeforeFree(t, s, e);
      UpsertForm(t, second, s, e);
      UpsertForm(u, second, s, e);
      if HasBlock(u, s, e) {
        StillBlock(b, q, second, s, e);
      } else {
        var gap := Gap(u);
        if u + gap + Fence(second, s, e) + "" == b + Fence(second, s, e) + q {
          GapFreeBoth(u, s, e);
          SamePlacement(u + gap, "", b, q, second, s, e);
        }
        if q == "" {
          assert u == b;
          assert gap == "" ==> u + gap + Fence(second, s, e) + "" == b + Fence(second, s, e) + q;
        }
      }
    }
  }

  lemma GapFreeBoth(t: string, s: string, e: string)
    requires Markers(s, e) && !HasBlock(t, s, e)
    ensures !Contains(t + Gap(t), s) || !Contains(t + Gap(t), e)
  {
    hide Gap, Contains, Marker;
    if Contains(t, s) {
      GapFree(t, e);
    } else {
      GapFree(t, s);
    }
  }

  /** When a block is left behind the kept text b, the next write goes elsewhere. */
  lemma StillBlock(b: string, q: string, body: string, s: string, e: string)
    requires Markers(s, e) && Free(b, s, e) && Free(body, s, e) && HasBlock(b + q, s, e)
    ensures var u := b + q; Before(u, s, e) + Fence(body, s, e) + Behind(u, s, e) != b + Fence(body, s, e) + q
    ensures q != ""
  {
    hide Fence, Gap, Contains;
    var u := b + q;
    IndexFirst(u, s);
    IndexFirst(u, e);
    var i := Index(u, s);
    assert q == "" ==> u == b;
    BeforeFirst(u, s, i);
    if Before(u, s, e) + Fence(body, s, e) + Behind(u, s, e) == b + Fence(body, s, e) + q {
      SamePlacement(Before(u, s, e), Behind(u, s, e), b, q, body, s, e);
      assert |Behind(u, s, e)| == |q|;
      assert BlockEnd(u, e) == |b|;
      OccursInPart(b, q, e, Index(u, e));
      OccursWithin(b, e, Index(u, e));
    }
  }

  lemma OccursWithin(t: string, m: string, i: int)
    requires OccursAt(t, m, i)
    ensures Contains(t, m)
  {
  }

  /** The block holds whatever was written last, with these exceptions only: a new block leaves its
      gap behind when it is removed, a removed block comes back at the end, and a second removal
      may find another block. */
  lemma LastWriteWins(t: string, first: string, second: string, s: string, e: string)
    requires Markers(s, e) && InOrder(t, s, e) && Free(first, s, e) && Free(second, s, e)
    ensures Upsert(Upsert(Some(t), first, s, e), second, s, e) == Upsert(Some(t), second, s, e) <==>
      if Blank(first) && Blank(second) then RemovedForGood(t, s, e)
      else if Blank(second) then HasBlock(t, s, e) || Gap(t) == ""
      else if Blank(first) then !HasBlock(t, s, e) || (Behind(t, s, e) == "" && Gap(Before(t, s, e)) == "")
      else true
  {
    hide Blank, Upsert, Gap, Before, Behind, RemovedForGood, InOrder, Free;
    if Blank(first) && Blank(second) {
      RemovalForm(t, first, s, e);
      RemovalForm(t, second, s, e);
      RemovalIdempotentIff(t, second, s, e);
    } else if Blank(second) {
      WriteThenRemove(t, first, second, s, e);
    } else if Blank(first) {
      RemoveThenWrite(t, first, second, s, e);
    } else {
      RewriteWins(t, first, second, s, e);
    }
  }

  /** A new file: the body alone decides, and a second run changes nothing. */
  lemma NewFileIdempotent(body: string, s: string, e: string)
    requires Markers(s, e) && Free(body, s, e)
    ensures Upsert(None, body, s, e) == if Blank(body) then None else Some(Fence(body, s, e))
    ensures Upsert(Upsert(None, body, s, e), body, s, e) == Upsert(None, body, s, e)
  {
    hide Fence, Blank;
    assert "" + Gap("") + Fence(body, s, e) == Fence(body, s, e);
    assert "" + Fence(body, s, e) + "" == Fence(body, s, e);
    if !Blank(body) {
      Replaces("", body, "", body, s, e);
    }
  }

  /** What stands between the kept parts: the old block, marker to marker, with its newline. */
  function OldBlock(t: string, s: string, e: string): string
  {
    if HasBlock(t, s, e) && Index(t, s) < Index(t, e) then
      IndexBounds(t, s); IndexBounds(t, e);
      t[Index(t, s)..BlockEnd(t, e)]
    else ""
  }

  /** A first start marker, something between, a first end marker, and its newline if it has one. */
  ghost predicate Fenced(block: string, s: string, e: string)
  {
    exists mid :: block == s + mid + e || block == s + mid + e + "\n"
  }

  /** The update keeps the text outside the block byte for byte. With markers in order, the old
      text is two kept parts around the old block, which runs from the first start marker to the
      first end marker, and the new text is the same two parts around the new block, or with
      nothing between them for a blank body. Without markers the whole text is kept. */
  lemma KeepsOutside(t: string, body: string, s: string, e: string)
    requires Markers(s, e) && InOrder(t, s, e)
    ensures HasBlock(t, s, e) ==>
      && t == Before(t, s, e) + OldBlock(t, s, e) + Behind(t, s, e) && Fenced(OldBlock(t, s, e), s, e)
      && Upsert(Some(t), body, s, e) ==
         Some(Before(t, s, e) + (if Blank(body) then "" else Fence(body, s, e)) + Behind(t, s, e))
    ensures !HasBlock(t, s, e) ==>
      Upsert(Some(t), body, s, e) == Some(if Blank(body) then t else t + Gap(t) + Fence(body, s, e))
  {
    hide Index, Contains, Marker, Blank, Gap, Fence;
    if HasBlock(t, s, e) {
      IndexFirst(t, s);
      IndexFirst(t, e);
      var i, j, k := Index(t, s), Index(t, e), BlockEnd(t, e);
      NoOverlap(t, s, e, i, j);
      BlockText(t, s, e, i, j, k);
      assert Before(t, s, e) + "" + Behind(t, s, e) == Before(t, s, e) + Behind(t, s, e);
    }
  }

  lemma BlockText(t: string, s: string, e: string, i: int, j: int, k: int)
    requires OccursAt(t, s, i) && OccursAt(t, e, j) && i + |s| <= j
    requires k == j + |e| || (j + |e| < |t| && t[j + |e|] == '\n' && k == j + |e| + 1)
    ensures t == t[..i] + t[i..k] + t[k..] && Fenced(t[i..k], s, e)
  {
    var mid := t[i + |s|..j];
    assert t[i..k] == t[i..i + |s|] + mid + t[j..j + |e|] + t[j + |e|..k];
    if k == j + |e| {
      assert t[i..k] == s + mid + e;
    } else {
      assert t[j + |e|..k] == "\n";
      assert t[i..k] == s + mid + e + "\n";
    }
  }

  // ---------------------------------------------------------------- and when it goes wrong

  /** End marker first: the old end marker is found again, and the file grows with every block
      written; a removal repeats what stands between the markers. */
  lemma BackwardsGrows(t: string, body: string, s: string, e: string)
    requires Markers(s, e) && HasBlock(t, s, e) && Index(t, e) < Index(t, s)
    ensures Upsert(Some(t), body, s, e).Some? && BlockEnd(t, e) <= Index(t, s)
    ensures |Upsert(Some(t), body, s, e).value| ==
      |t| + (Index(t, s) - BlockEnd(t, e)) + (if Blank(body) then 0 else |Fence(body, s, e)|)
  {
    hide Blank, Fence;
    IndexFirst(t, s);
    IndexFirst(t, e);
    NoOverlap(t, e, s, Index(t, e), Index(t, s));
    OccursChar(t, s, Index(t, s), 0);
  }

  /** An end marker that stands before every start marker stays there. */
  lemma StillBackwards(a: string, body: string, r: string, s: string, e: string)
    requires Markers(s, e) && Free(body, s, e) && !Contains(a, s) && Contains(a, e)
    ensures var t := a + Fence(body, s, e) + r; HasBlock(t, s, e) && Index(t, e) < Index(t, s)
  {
    hide Fence;
    var t := a + Fence(body, s, e) + r;
    FirstMarkers(a, body, r, s, e);
    FirstIsIndex(t, s, |a|);
    IndexFirst(a, e);
    var j := Index(a, e);
    assert t == a + (Fence(body, s, e) + r);
    forall i | 0 <= i <= j
      ensures OccursAt(t, e, i) <==> OccursAt(a, e, i)
    {
      OccursInPart(a, Fence(body, s, e) + r, e, i);
    }
    FirstIsIndex(t, e, j);
  }

  /** Start marker only: everything from it on is lost on the second run. */
  lemma OpenEndedShrinks(t: string, body: string, s: string, e: string)
    requires Markers(s, e) && Contains(t, s) && !Contains(t, e) && !Blank(body) && Free(body, s, e)
    ensures var once := Upsert(Some(t), body, s, e);
      once.Some? && Upsert(once, body, s, e).Some? && |Upsert(once, body, s, e).value| < |once.value|
  {
    hide Blank, Fence, Gap, Index, Contains, Marker, Upsert;
    UpsertForm(t, body, s, e);
    var a := t + Gap(t);
    var u := a + Fence(body, s, e) + "";
    FirstEndMarker(a, body, s, e, t);
    IndexFirst(t, s);
    EarlierStart(t, Gap(t) + Fence(body, s, e) + "", s);
    assert u == t + (Gap(t) + Fence(body, s, e) + "");
    UpsertForm(u, body, s, e);
    FenceLength(body, s, e);
    FencePlaces(a, body, "", s, e);
    assert BlockEnd(u, e) == |u|;
  }

  lemma FirstEndMarker(a: string, body: string, s: string, e: string, t: string)
    requires Markers(s, e) && Free(body, s, e) && !Contains(t, e) && a == t + Gap(t)
    ensures var u := a + Fence(body, s, e) + ""; Contains(u, e) && Index(u, e) == FenceEnd(a, body, s)
  {
    hide Fence, Gap, Contains;
    GapFree(t, e);
    FirstEnd(a, body, "", s, e);
    FirstIsIndex(a + Fence(body, s, e) + "", e, FenceEnd(a, body, s));
  }

  lemma EarlierStart(t: string, more: string, s: string)
    requires Contains(t, s) && s != ""
    ensures Contains(t + more, s) && Index(t + more, s) == Index(t, s)
  {
    IndexFirst(t, s);
    forall i | 0 <= i <= Index(t, s)
      ensures OccursAt(t + more, s, i) <==> OccursAt(t, s, i)
    {
      OccursInPart(t, more, s, i);
    }
    FirstIsIndex(t + more, s, Index(t, s));
  }

  /** Removing again removes nothing: there was no block, or what is left has none, or its end
      marker is followed at once by its start marker. */
  ghost predicate RemovedForGood(t: string, s: string, e: string)
  {
    HasBlock(t, s, e) ==>
      var u := Before(t, s, e) + Behind(t, s, e);
      HasBlock(u, s, e) ==> BlockEnd(u, e) == Index(u, s)
  }

  lemma RemovalIdempotentIff(t: string, blank: string, s: string, e: string)
    requires Blank(blank)
    ensures Upsert(Upsert(Some(t), blank, s, e), blank, s, e) == Upsert(Some(t), blank, s, e) <==> RemovedForGood(t, s, e)
  {
    hide Blank, Upsert, HasBlock, Gap;
    RemovalForm(t, blank, s, e);
    if HasBlock(t, s, e) {
      var u := Before(t, s, e) + Behind(t, s, e);
      RemovalForm(u, blank, s, e);
      if HasBlock(u, s, e) {
        RemovalLength(u, s, e);
      }
    }
  }

  lemma RemovalLength(u: string, s: string, e: string)
    requires HasBlock(u, s, e)
    ensures Before(u, s, e) + Behind(u, s, e) == u <==> BlockEnd(u, e) == Index(u, s)
  {
    hide Contains;
    IndexBounds(u, s);
    IndexBounds(u, e);
    assert |Before(u, s, e) + Behind(u, s, e)| == Index(u, s) + |u| - BlockEnd(u, e);
    assert u[..Index(u, s)] + u[Index(u, s)..] == u;
  }

  /** Exactly when a second run with the same marker-free body changes nothing. A block that is
      written stays as it is if the text has no marker, or its first start marker comes before its
      first end marker; a block that is removed stays away if no other block comes up. */
  lemma IdempotentIff(t: string, body: string, s: string, e: string)
    requires Markers(s, e) && Free(body, s, e)
    ensures Upsert(Upsert(Some(t), body, s, e), body, s, e) == Upsert(Some(t), body, s, e) <==>
      if Blank(body) then RemovedForGood(t, s, e) else InOrder(t, s, e)
  {
    hide Blank, Fence, Upsert;
    if Blank(body) {
      RemovalIdempotentIff(t, body, s, e);
    } else if InOrder(t, s, e) {
      RewriteWins(t, body, body, s, e);
    } else if Contains(t, s) && !Contains(t, e) {
      OpenEndedShrinks(t, body, s, e);
    } else {
      UpsertForm(t, body, s, e);
      OutOfOrderPrefix(t, s, e);
      StillBackwards(Before(t, s, e), body, Behind(t, s, e), s, e);
      BackwardsGrows(Before(t, s, e) + Fence(body, s, e) + Behind(t, s, e), body, s, e);
      FenceLength(body, s, e);
    }
  }

  /** Of two blocks in one file, each run with a blank body removes one, though the markers are in order. */
  lemma TwoBlocksGoOneByOne(x: string, y: string, s: string, e: string)
    requires Markers(s, e) && Free(x, s, e) && Free(y, s, e)
    ensures var t := Fence(x, s, e) + Fence(y, s, e);
      && InOrder(t, s, e) && !RemovedForGood(t, s, e)
      && Upsert(Some(t), "", s, e) == Some(Fence(y, s, e))
      && Upsert(Some(Fence(y, s, e)), "", s, e) == Some("")
  {
    hide Fence, Upsert, Contains, Index, RemovedForGood;
    var t := Fence(x, s, e) + Fence(y, s, e);
    assert "" + Fence(x, s, e) + Fence(y, s, e) == t && "" + Fence(y, s, e) + "" == Fence(y, s, e);
    assert Free("", s, e) by {
      NothingIn(s);
      NothingIn(e);
    }
    BlankRemoves("", x, Fence(y, s, e), "", s, e);
    BlankRemoves("", y, "", "", s, e);
    assert "" + Fence(y, s, e) == Fence(y, s, e) && "" + "" == "";
    FirstMarkers("", x, Fence(y, s, e), s, e);
    FirstIsIndex(t, s, 0);
    FirstIsIndex(t, e, FenceEnd("", x, s));
    FenceLength(y, s, e);
    RemovalIdempotentIff(t, "", s, e);
  }

  lemma NothingIn(m: string)
    requires m != ""
    ensures !Contains("", m)
  {
  }

  lemma OutOfOrderPrefix(t: string, s: string, e: string)
    requires Markers(s, e) && Contains(t, e) && (Contains(t, s) ==> Index(t, e) <= Index(t, s))
    ensures !Contains(Before(t, s, e), s) && Contains(Before(t, s, e), e)
  {
    hide Gap;
    IndexFirst(t, s);
    IndexFirst(t, e);
    if Contains(t, s) {
      var i, j := Index(t, s), Index(t, e);
      BeforeFirst(t, s, i);
      if i == j {
        SamePlace(t, s, e, i);
      }
      NoOverlap(t, e, s, j, i);
      assert t[..i] + t[i..] == t;
      OccursInPart(t[..i], t[i..], e, j);
    } else {
      GapFree(t, s);
      OccursInPart(t, Gap(t), e, Index(t, e));
    }
  }
}
