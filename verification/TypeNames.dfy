/** internal/contracts/validate.go, canonicalType: reduces a textual type expression to the name
    that is compared across languages. */
module TypeNames {
  import opened Basics

  // ---------------------------------------------------------------- Go's strings package

  predicate HasPrefix(t: string, p: string)
  {
    |p| <= |t| && t[..|p|] == p
  }

  predicate HasSuffix(t: string, p: string)
  {
    |p| <= |t| && t[|t| - |p|..] == p
  }

  function TrimPrefix(t: string, p: string): string
  {
    if HasPrefix(t, p) then t[|p|..] else t
  }

  function TrimSuffix(t: string, p: string): string
  {
    if HasSuffix(t, p) then t[..|t| - |p|] else t
  }

  /** ReplaceAll(t, " ", ""). */
  function DropBlanks(t: string): string
  {
    if t == "" then "" else (if t[0] == ' ' then "" else [t[0]]) + DropBlanks(t[1..])
  }

  function TrimSuffixes(t: string, suffixes: seq<string>): string
    decreases |suffixes|
  {
    if suffixes == [] then t else TrimSuffixes(TrimSuffix(t, suffixes[0]), suffixes[1..])
  }

  /** What follows the last dot. */
  function AfterDot(t: string): string
  {
    if t == "" then ""
    else if t[|t| - 1] == '.' then ""
    else AfterDot(t[..|t| - 1]) + [t[|t| - 1]]
  }

  // ---------------------------------------------------------------- the rewriting

  const NULLABLE := ["|null", "|None", "|undefined"]
  const CONTAINERS := ["Array<", "List<", "Set<", "Collection<", "Optional<"]
  const BYTE_SLICES := ["[]byte", "byte[]", "Vec<u8>", "Uint8List"]

  predicate Openers(prefixes: seq<string>)
  {
    forall i :: 0 <= i < |prefixes| ==> prefixes[i] != "" && prefixes[i][|prefixes[i]| - 1] == '<'
  }

  predicate Wrapped(t: string, opener: string)
  {
    HasPrefix(t, opener) && HasSuffix(t, ">")
  }

  /** The slice below is in range: an opener ends in '<', so it cannot also be the '>' at the end. */
  lemma WrappedRoom(t: string, opener: string)
    requires Wrapped(t, opener) && opener != "" && opener[|opener| - 1] == '<'
    ensures |opener| < |t|
  {
    assert t[|opener| - 1] == t[..|opener|][|opener| - 1];
    assert t[|t| - 1] == t[|t| - 1..][0];
  }

  function DropContainer(t: string, openers: seq<string>): (r: string)
    requires Openers(openers)
    ensures |r| <= |t| && (|r| == |t| ==> r == t)
    decreases |openers|
  {
    if openers == [] then t
    else if Wrapped(t, openers[0]) then (WrappedRoom(t, openers[0]); t[|openers[0]|..|t| - 1])
    else DropContainer(t, openers[1..])
  }

  /** One round of the loop. */
  function Unwrap1(t: string): (r: string)
    ensures |r| <= |t| && (|r| == |t| ==> r == t)
  {
    TrimPrefix(TrimSuffix(DropContainer(t, CONTAINERS), "[]"), "[]")
  }

  function Unwrap(t: string): string
    decreases |t|
  {
    if Unwrap1(t) == t then t else Unwrap(Unwrap1(t))
  }

  /** Everything before the byte-slice test. */
  function Clean(t: string): string
  {
    TrimSuffixes(DropBlanks(TrimSuffix(TrimPrefix(TrimSpace(t), "*"), "?")), NULLABLE)
  }

  function Canonical(t: string): string
  {
    var c := Clean(t);
    if c in BYTE_SLICES then "bytes" else AfterDot(Unwrap(c))
  }

  /** Drops one container, if there is one. */
  method DropFirstContainer(t: string) returns (r: string, changed: bool)
    ensures r == DropContainer(t, CONTAINERS) && (changed <==> r != t)
  {
    assert CONTAINERS[0..] == CONTAINERS;
    for i := 0 to |CONTAINERS|
      invariant DropContainer(t, CONTAINERS) == DropContainer(t, CONTAINERS[i..])
    {
      var opener := CONTAINERS[i];
      assert CONTAINERS[i..][0] == opener && CONTAINERS[i..][1..] == CONTAINERS[i + 1..];
      if HasPrefix(t, opener) && HasSuffix(t, ">") {
        WrappedRoom(t, opener);
        return t[|opener|..|t| - 1], true;
      }
    }
    return t, false;
  }

  method CanonicalType(text: string) returns (r: string)
    ensures r == Canonical(text)
  {
    hide DropContainer, TrimLeft, TrimRight, AfterDot, DropBlanks;
    var t := TrimSpace(text);
    t := TrimPrefix(t, "*");
    t := TrimSuffix(t, "?");
    t := DropBlanks(t);
    assert NULLABLE[0..] == NULLABLE;
    for i := 0 to |NULLABLE|
      invariant Clean(text) == TrimSuffixes(t, NULLABLE[i..])
    {
      assert NULLABLE[i..][0] == NULLABLE[i] && NULLABLE[i..][1..] == NULLABLE[i + 1..];
      t := TrimSuffix(t, NULLABLE[i]);
    }
    if t in BYTE_SLICES {
      return "bytes";
    }
    ghost var clean := t;
    while true
      invariant Unwrap(t) == Unwrap(clean)
      decreases |t|
    {
      ghost var before := t;
      var changed;
      t, changed := DropFirstContainer(t);
      if HasSuffix(t, "[]") {
        t := t[..|t| - 2];
        changed := true;
      }
      if HasPrefix(t, "[]") {
        t := t[2..];
        changed := true;
      }
      assert t == Unwrap1(before) && (changed <==> t != before);
      if !changed {
        break;
      }
    }
    r := AfterLastDot(t);
  }

  /** The slice from the last dot on, as LastIndex finds it. */
  method AfterLastDot(t: string) returns (r: string)
    ensures r == AfterDot(t)
  {
    var i := |t|;
    assert t[..i] == t;
    while i > 0 && t[i - 1] != '.'
      invariant 0 <= i <= |t|
      invariant AfterDot(t) == AfterDot(t[..i]) + t[i..]
    {
      assert t[..i][..i - 1] == t[..i - 1];
      assert [t[i - 1]] + t[i..] == t[i - 1..];
      i := i - 1;
    }
    r := t[i..];
  }

  // ---------------------------------------------------------------- containers do not matter

  /** The three rewrites never disagree: dropping a leading pair of brackets first changes nothing. */
  lemma {:induction false} LeadingFirst(t: string)
    requires HasPrefix(t, "[]")
    ensures Unwrap(t) == Unwrap(t[2..])
    decreases |t|
  {
    NoContainerLeading(t);
    hide DropContainer, Unwrap;
    UnwrapOnce(t);
    if HasSuffix(t, "[]") && |t| > 2 {
      assert t[1] == t[..2][1] == ']' && t[|t| - 2] == t[|t| - 2..][0] == '[';
      var u := t[2..];
      assert HasSuffix(u, "[]") by {
        assert u[|u| - 2..] == t[|t| - 2..];
      }
      TrailingFirst(u);
      assert HasPrefix(t[..|t| - 2], "[]") by {
        assert t[..|t| - 2][..2] == t[..2];
      }
      assert u[..|u| - 2] == t[..|t| - 2][2..];
    } else if HasSuffix(t, "[]") {
      assert t == "[]" && t[2..] == "" && t[..0] == "";
    }
  }

  lemma {:induction false} TrailingFirst(t: string)
    requires HasSuffix(t, "[]")
    ensures Unwrap(t) == Unwrap(t[..|t| - 2])
    decreases |t|
  {
    NoContainerTrailing(t);
    hide DropContainer, Unwrap;
    UnwrapOnce(t);
    if HasPrefix(t[..|t| - 2], "[]") {
      LeadingFirst(t[..|t| - 2]);
    }
  }

  lemma UnwrapOnce(t: string)
    ensures Unwrap(t) == Unwrap(Unwrap1(t))
  {
  }

  lemma {:induction false} NotWrapped(t: string, openers: seq<string>)
    requires Openers(openers) && forall i :: 0 <= i < |openers| ==> !Wrapped(t, openers[i])
    ensures DropContainer(t, openers) == t
    decreases |openers|
  {
    if openers != [] {
      NotWrapped(t, openers[1..]);
    }
  }

  lemma NoContainerLeading(t: string)
    requires HasPrefix(t, "[]")
    ensures DropContainer(t, CONTAINERS) == t
  {
    assert t[0] == t[..2][0];
    forall i | 0 <= i < |CONTAINERS|
      ensures !Wrapped(t, CONTAINERS[i])
    {
    }
    NotWrapped(t, CONTAINERS);
  }

  lemma NoContainerTrailing(t: string)
    requires HasSuffix(t, "[]")
    ensures DropContainer(t, CONTAINERS) == t
  {
    assert t[|t| - 1] == t[|t| - 2..][1];
    assert !HasSuffix(t, ">");
    NotWrapped(t, CONTAINERS);
  }

  lemma {:induction false} ContainerFirst(t: string, openers: seq<string>, i: nat)
    requires Openers(openers) && i < |openers| && Wrapped(t, openers[i])
    requires forall j :: 0 <= j < i ==> !HasPrefix(t, openers[j])
    ensures |openers[i]| < |t| && DropContainer(t, openers) == t[|openers[i]|..|t| - 1]
    decreases |openers|
  {
    WrappedRoom(t, openers[i]);
    if i > 0 {
      ContainerFirst(t, openers[1..], i - 1);
    }
  }

  /** The text of a container type. */
  function InContainer(t: string, i: nat): string
    requires i < |CONTAINERS|
  {
    CONTAINERS[i] + t + ">"
  }

  lemma ContainerDrops(t: string, i: nat)
    requires i < |CONTAINERS|
    ensures DropContainer(InContainer(t, i), CONTAINERS) == t
  {
    var w := InContainer(t, i);
    assert w[..|CONTAINERS[i]|] == CONTAINERS[i] && w[|w| - 1..] == ">";
    assert w[0] == CONTAINERS[i][0];
    ContainerFirst(w, CONTAINERS, i);
  }

  /** Wrapping in a container or in brackets is undone, whatever the text. */
  lemma WrappingUndone(t: string)
    ensures forall i :: 0 <= i < |CONTAINERS| ==> Unwrap(InContainer(t, i)) == Unwrap(t)
    ensures Unwrap("[]" + t) == Unwrap(t) && Unwrap(t + "[]") == Unwrap(t)
  {
    hide Unwrap, DropContainer, InContainer;
    assert ("[]" + t)[..2] == "[]" && ("[]" + t)[2..] == t;
    LeadingFirst("[]" + t);
    assert (t + "[]")[|t|..] == "[]" && (t + "[]")[..|t|] == t;
    TrailingFirst(t + "[]");
    forall i | 0 <= i < |CONTAINERS|
      ensures Unwrap(InContainer(t, i)) == Unwrap(t)
    {
      ContainerDrops(t, i);
      UnwrapOnce(InContainer(t, i));
      var u := TrimSuffix(t, "[]");
      if HasSuffix(t, "[]") {
        TrailingFirst(t);
      }
      if HasPrefix(u, "[]") {
        LeadingFirst(u);
      }
    }
  }

  /** Nothing is left to unwrap. */
  lemma {:induction false} UnwrapDone(t: string)
    ensures Unwrap1(Unwrap(t)) == Unwrap(t)
    decreases |t|
  {
    if Unwrap1(t) != t {
      UnwrapDone(Unwrap1(t));
    }
  }

  // ---------------------------------------------------------------- and so for canonical names

  /** The text has no blanks, pointer star or optional marks for Clean to drop. */
  ghost predicate Tidy(t: string)
  {
    && (t != "" ==> !IsSpace(t[0]) && !IsSpace(t[|t| - 1]) && t[0] != '*' && t[|t| - 1] != '?')
    && ' ' !in t
    && forall i :: 0 <= i < |NULLABLE| ==> !HasSuffix(t, NULLABLE[i])
  }

  lemma {:induction false} NoBlanks(t: string)
    requires ' ' !in t
    ensures DropBlanks(t) == t
    decreases |t|
  {
    if t != "" {
      NoBlanks(t[1..]);
    }
  }

  lemma {:induction false} NoSuffixes(t: string, suffixes: seq<string>)
    requires forall i :: 0 <= i < |suffixes| ==> !HasSuffix(t, suffixes[i])
    ensures TrimSuffixes(t, suffixes) == t
    decreases |suffixes|
  {
    if suffixes != [] {
      NoSuffixes(t, suffixes[1..]);
    }
  }

  lemma TidyClean(t: string)
    requires Tidy(t)
    ensures Clean(t) == t
  {
    NoBlanks(t);
    NoSuffixes(t, NULLABLE);
    assert TrimSpace(t) == t;
    assert !HasPrefix(t, "*") && !HasSuffix(t, "?");
  }

  /** Canonical names of texts that need no cleaning. */
  lemma CanonicalTidy(t: string)
    requires Tidy(t)
    ensures Canonical(t) == if t in BYTE_SLICES then "bytes" else AfterDot(Unwrap(t))
  {
    TidyClean(t);
    hide Clean, Tidy, Unwrap, AfterDot, BYTE_SLICES;
  }

  /** The name of a text whose containers and package are dropped, nothing else. */
  function BareName(t: string): string
  {
    AfterDot(Unwrap(t))
  }

  lemma {:induction false} BlanksDropped(a: string, b: string)
    ensures DropBlanks(a + b) == DropBlanks(a) + DropBlanks(b)
    decreases |a|
  {
    if a == "" {
      assert a + b == b;
    } else {
      assert (a + b)[1..] == a[1..] + b;
      BlanksDropped(a[1..], b);
    }
  }

  lemma {:induction false} NoBlankLeft(t: string)
    ensures ' ' !in DropBlanks(t)
    decreases |t|
  {
    if t != "" {
      NoBlankLeft(t[1..]);
    }
  }

  lemma OpenerPlain(i: nat)
    requires i < |CONTAINERS|
    ensures |CONTAINERS[i]| > 1 && CONTAINERS[i][0] in {'A', 'L', 'S', 'C', 'O'} && ' ' !in CONTAINERS[i]
  {
  }

  lemma BlanksInContainer(t: string, i: nat)
    requires i < |CONTAINERS|
    ensures DropBlanks(InContainer(t, i)) == InContainer(DropBlanks(t), i)
  {
    OpenerPlain(i);
    hide DropBlanks, CONTAINERS;
    BlanksDropped(CONTAINERS[i], t);
    BlanksDropped(CONTAINERS[i] + t, ">");
    NoBlanks(CONTAINERS[i]);
    NoBlanks(">");
  }

  lemma FirmContainer(t: string, i: nat)
    requires i < |CONTAINERS|
    ensures Firm(InContainer(t, i))
  {
    assert InContainer(t, i)[0] == CONTAINERS[i][0];
  }

  lemma CleanFirm(t: string)
    requires Firm(t) && Firm(DropBlanks(t))
    ensures Clean(t) == DropBlanks(t)
  {
    hide TrimSpace, TrimPrefix, TrimSuffix, DropBlanks, TrimSuffixes, NULLABLE;
    FirmEnds(t);
    NoMarks(DropBlanks(t));
  }

  /** Whatever the element text, blanks included, a container is named after it, with nothing
      dropped but blanks: pointer stars and optional marks inside a container stay. */
  lemma ContainerName(t: string, i: nat)
    requires i < |CONTAINERS|
    ensures Canonical(InContainer(t, i)) == BareName(DropBlanks(t))
  {
    hide AfterDot, Unwrap, InContainer, Firm, Clean, DropBlanks, BYTE_SLICES;
    var u := DropBlanks(t);
    BlanksInContainer(t, i);
    FirmContainer(t, i);
    FirmContainer(u, i);
    CleanFirm(InContainer(t, i));
    ContainerNoSlice(u, i);
    WrappingUndone(u);
  }

  lemma CleanOptional(t: string)
    requires Tidy(t) && t != ""
    ensures Clean(t + "?") == t
  {
    hide NULLABLE, HasSuffix;
    var u := t + "?";
    assert u[0] == t[0] && u[|u| - 1] == '?';
    assert TrimSpace(u) == u;
    NotPrefix(u, "*");
    EndsInMark(t, "?");
    NoBlanks(t);
    NoSuffixes(t, NULLABLE);
    hide TrimLeft, TrimRight, DropBlanks, TrimSuffixes;
    assert TrimSuffix(u, "?") == t;
  }

  lemma EndsInMark(t: string, m: string)
    ensures HasSuffix(t + m, m) && TrimSuffix(t + m, m) == t
  {
  }

  /** A user type's name without a package. */
  ghost predicate Plain(t: string)
  {
    && Tidy(t) && |t| >= 2 && t[0] !in {'A', 'L', 'S', 'C', 'O', '['} && t[|t| - 1] != ']'
    && '.' !in t && t !in BYTE_SLICES
  }

  /** For example an optional element: on its own its mark is dropped, in a container it is kept,
      so List<User?> and User? have different names. */
  lemma OptionalElement(t: string, i: nat)
    requires Plain(t) && i < |CONTAINERS|
    ensures Canonical(t + "?") == t && Canonical(InContainer(t + "?", i)) == t + "?"
  {
    hide Unwrap, AfterDot, InContainer, DropBlanks, Clean, BYTE_SLICES, CONTAINERS;
    var u := t + "?";
    assert u[0] == t[0] && u[|u| - 1] == '?';
    ContainerName(u, i);
    NoBlanks(u);
    UnwrapNothing(u);
    NoDots(u);
    CleanOptional(t);
    UnwrapNothing(t);
    NoDots(t);
  }

  // ---------------------------------------------------------------- brackets around any text

  /** What Clean drops at the end of a text, and what it drops at its start. */
  function CleanEnd(t: string): string
  {
    TrimSuffixes(DropBlanks(TrimSuffix(TrimRight(t), "?")), NULLABLE)
  }

  function CleanStart(t: string): string
  {
    DropBlanks(TrimPrefix(TrimLeft(t), "*"))
  }

  lemma {:induction false} TrimRightBehind(t: string)
    ensures TrimRight("[]" + t) == "[]" + TrimRight(t)
    decreases |t|
  {
    var a := "[]" + t;
    if t != "" && IsSpace(t[|t| - 1]) {
      assert a[..|a| - 1] == "[]" + t[..|t| - 1];
      TrimRightBehind(t[..|t| - 1]);
    } else {
      assert a[|a| - 1] == if t == "" then ']' else t[|t| - 1];
    }
  }

  lemma {:induction false} TrimLeftBefore(t: string)
    ensures TrimLeft(t + "[]") == TrimLeft(t) + "[]"
    decreases |t|
  {
    var a := t + "[]";
    if t != "" {
      assert a[0] == t[0] && a[1..] == t[1..] + "[]";
      TrimLeftBefore(t[1..]);
    }
  }

  lemma SuffixBehind(t: string, p: string)
    requires p != "" && p[0] !in "[]" && (|p| == 1 || p[1] != ']')
    ensures HasSuffix("[]" + t, p) <==> HasSuffix(t, p)
    ensures TrimSuffix("[]" + t, p) == "[]" + TrimSuffix(t, p)
  {
    var a := "[]" + t;
    if |p| <= |t| {
      assert a[|a| - |p|..] == t[|t| - |p|..];
      assert a[..|a| - |p|] == "[]" + t[..|t| - |p|];
    } else if |p| <= |a| {
      assert a[|a| - |p|..][0] == a[|a| - |p|];
    }
  }

  lemma {:induction false} SuffixesBehind(t: string, suffixes: seq<string>)
    requires forall i :: 0 <= i < |suffixes| ==> |suffixes[i]| > 1 && suffixes[i][0] == '|' && suffixes[i][1] != ']'
    ensures TrimSuffixes("[]" + t, suffixes) == "[]" + TrimSuffixes(t, suffixes)
    decreases |suffixes|
  {
    if suffixes != [] {
      SuffixBehind(t, suffixes[0]);
      SuffixesBehind(TrimSuffix(t, suffixes[0]), suffixes[1..]);
    }
  }

  lemma CleanBehind(t: string)
    ensures Clean("[]" + t) == "[]" + CleanEnd(t)
  {
    hide TrimSuffixes, TrimSuffix, DropBlanks;
    var u := "[]" + t;
    assert TrimLeft(u) == u;
    TrimRightBehind(t);
    var v := "[]" + TrimRight(t);
    assert v[0] == '[';
    NotPrefix(v, "*");
    SuffixBehind(TrimRight(t), "?");
    BlanksDropped("[]", TrimSuffix(TrimRight(t), "?"));
    NoBlanks("[]");
    SuffixesBehind(DropBlanks(TrimSuffix(TrimRight(t), "?")), NULLABLE);
  }

  lemma CleanBefore(t: string)
    ensures Clean(t + "[]") == CleanStart(t) + "[]"
  {
    hide TrimSuffixes, DropBlanks, HasPrefix, TrimLeft;
    TrimLeftBefore(t);
    var l := TrimLeft(t);
    assert (l + "[]")[|l| + 1] == ']';
    assert TrimRight(l + "[]") == l + "[]";
    PrefixBefore(l);
    var m := TrimPrefix(l, "*");
    NotSuffix(m + "[]", "?");
    BlanksDropped(m, "[]");
    NoBlanks("[]");
    NoMarks(CleanStart(t) + "[]");
  }

  lemma PrefixBefore(t: string)
    ensures TrimPrefix(t + "[]", "*") == TrimPrefix(t, "*") + "[]"
  {
    var a := t + "[]";
    if t != "" {
      assert a[..1] == t[..1] && a[1..] == t[1..] + "[]";
    } else {
      assert a[..1] == "[";
    }
  }

  /** Whatever the element text, a slice type is called after what is left of it when only its open
      end is cleaned; a slice of bytes is called bytes. */
  lemma SliceName(t: string)
    ensures Canonical("[]" + t) == if CleanEnd(t) == "byte" then "bytes" else BareName(CleanEnd(t))
    ensures Canonical(t + "[]") == if CleanStart(t) == "byte" then "bytes" else BareName(CleanStart(t))
  {
    hide Clean, CleanEnd, CleanStart, Unwrap, AfterDot, BYTE_SLICES;
    CleanBehind(t);
    CleanBefore(t);
    BracketedByte(CleanEnd(t));
    BracketedByte(CleanStart(t));
    WrappingUndone(CleanEnd(t));
    WrappingUndone(CleanStart(t));
  }

  /** The containers by name. */
  lemma ContainerTexts(t: string)
    ensures Canonical("Array<" + t + ">") == Canonical("List<" + t + ">") == Canonical("Set<" + t + ">")
    ensures Canonical("Collection<" + t + ">") == Canonical("Optional<" + t + ">") == Canonical("List<" + t + ">")
  {
    hide Canonical, BareName;
    ContainerName(t, 0);
    ContainerName(t, 1);
    ContainerName(t, 2);
    ContainerName(t, 3);
    ContainerName(t, 4);
  }

  lemma ContainerNoSlice(t: string, i: nat)
    requires i < |CONTAINERS|
    ensures InContainer(t, i) !in BYTE_SLICES
  {
    var w := InContainer(t, i);
    assert w[0] == CONTAINERS[i][0];
  }

  /** A text that starts with a letter or bracket and ends in a closing bracket is not trimmed. */
  ghost predicate Firm(t: string)
  {
    |t| >= 2 && t[0] in "ALSCO[" && t[|t| - 1] in ">]"
  }

  lemma FirmEnds(t: string)
    requires Firm(t)
    ensures TrimSpace(t) == t && TrimPrefix(t, "*") == t && TrimSuffix(t, "?") == t
  {
    NotPrefix(t, "*");
    NotSuffix(t, "?");
  }

  lemma NoMarks(t: string)
    requires t != "" && t[|t| - 1] in ">]"
    ensures TrimSuffixes(t, NULLABLE) == t
  {
    hide HasSuffix;
    forall k | 0 <= k < |NULLABLE|
      ensures !HasSuffix(t, NULLABLE[k])
    {
      NotSuffix(t, NULLABLE[k]);
    }
    NoSuffixes(t, NULLABLE);
  }

  /** So List<User> compares to User: a container has its element's canonical name exactly when
      what Clean drops besides blanks makes no difference; when there is nothing such to drop,
      exactly unless the element is a byte slice. */
  lemma ContainerNamedAfterElement(t: string, i: nat)
    requires i < |CONTAINERS|
    ensures Canonical(InContainer(t, i)) == Canonical(t) <==>
      if Clean(t) in BYTE_SLICES then BareName(DropBlanks(t)) == "bytes" else BareName(DropBlanks(t)) == BareName(Clean(t))
    ensures Clean(t) == DropBlanks(t) ==>
      (Canonical(InContainer(t, i)) == Canonical(t) <==> Clean(t) !in BYTE_SLICES)
  {
    hide Clean, Unwrap, InContainer, AfterDot, DropBlanks, BYTE_SLICES;
    ContainerName(t, i);
    ByteSliceName(Clean(t));
  }

  /** The same for brackets, which leave the open end of the element to be cleaned. */
  lemma SliceNamedAfterElement(t: string)
    ensures Clean(t) == CleanEnd(t) ==>
      (Canonical("[]" + t) == Canonical(t) <==> Clean(t) !in BYTE_SLICES && Clean(t) != "byte")
    ensures Clean(t) == CleanStart(t) ==>
      (Canonical(t + "[]") == Canonical(t) <==> Clean(t) !in BYTE_SLICES && Clean(t) != "byte")
  {
    hide Clean, CleanEnd, CleanStart, Unwrap, AfterDot, BYTE_SLICES;
    SliceName(t);
    ByteSliceName(Clean(t));
    BracketedByte(Clean(t));
  }

  lemma BracketedByte(t: string)
    ensures "[]" + t in BYTE_SLICES <==> t == "byte"
    ensures t + "[]" in BYTE_SLICES <==> t == "byte"
    ensures "byte" !in BYTE_SLICES
  {
    var a, b := "[]" + t, t + "[]";
    assert a[0] == '[' && b[|b| - 1] == ']';
    assert a == "[]byte" ==> t == a[2..] == "byte";
    assert b == "byte[]" ==> t == b[..4] == "byte";
    assert a != "byte[]" && a != "Vec<u8>" && a != "Uint8List";
    assert b != "[]byte" && b != "Vec<u8>" && b != "Uint8List";
  }

  /** Taken apart like other containers, byte slices would not be called bytes. */
  lemma ByteSliceName(t: string)
    ensures t in BYTE_SLICES || t == "byte" ==> AfterDot(Unwrap(t)) != "bytes"
  {
    hide Unwrap, AfterDot;
    if t == "byte" || t == "Vec<u8>" || t == "Uint8List" {
      KeptWhole(t);
    } else if t == "[]byte" || t == "byte[]" {
      WrappingUndone("byte");
      KeptWhole("byte");
      assert t == "[]" + "byte" || t == "byte" + "[]";
    }
  }

  lemma KeptWhole(t: string)
    requires t == "byte" || t == "Vec<u8>" || t == "Uint8List" || t == "int" || t == "string"
    ensures AfterDot(Unwrap(t)) == t
  {
    hide AfterDot, Unwrap, DropContainer;
    UnwrapNothing(t);
    NoDots(t);
  }

  lemma UnwrapNothing(t: string)
    requires |t| >= 2 && t[0] !in {'A', 'L', 'S', 'C', 'O', '['} && t[|t| - 1] != ']'
    ensures Unwrap(t) == t
  {
    hide Unwrap, DropContainer, HasPrefix, HasSuffix;
    forall i | 0 <= i < |CONTAINERS|
      ensures !HasPrefix(t, CONTAINERS[i])
    {
      OpenerPlain(i);
      hide CONTAINERS;
      NotPrefix(t, CONTAINERS[i]);
    }
    NotWrapped(t, CONTAINERS);
    NotPrefix(t, "[]");
    NotSuffix(t, "[]");
    Irreducible(t);
  }

  lemma Irreducible(t: string)
    requires DropContainer(t, CONTAINERS) == t && !HasSuffix(t, "[]") && !HasPrefix(t, "[]")
    ensures Unwrap(t) == t
  {
    hide DropContainer, HasPrefix, HasSuffix;
  }

  lemma NotSuffix(t: string, p: string)
    requires t != "" && p != "" && t[|t| - 1] != p[|p| - 1]
    ensures !HasSuffix(t, p)
  {
    if |p| <= |t| {
      assert t[|t| - 1] == t[|t| - |p|..][|p| - 1];
    }
  }

  lemma NotPrefix(t: string, p: string)
    requires t != "" && p != "" && t[0] != p[0]
    ensures !HasPrefix(t, p)
  {
  }

  lemma {:induction false} NoDots(t: string)
    requires '.' !in t
    ensures AfterDot(t) == t
    decreases |t|
  {
    if t != "" {
      NoDots(t[..|t| - 1]);
    }
  }

  lemma PlainCanonical(t: string)
    requires Plain(t)
    ensures Canonical(t) == t
  {
    hide AfterDot, Unwrap, Canonical, Tidy, BYTE_SLICES;
    CanonicalTidy(t);
    UnwrapNothing(t);
    NoDots(t);
  }

  lemma NoBarSuffix(t: string, p: string)
    requires p != "" && p[0] == '|' && '|' !in t
    ensures !HasSuffix(t, p)
  {
    if |p| <= |t| {
      assert t[|t| - |p|..][0] == t[|t| - |p|];
    }
  }

  /** Texts without any of the marks that Clean looks for. */
  lemma NoMarkTidy(t: string)
    requires t != "" && '|' !in t && '*' !in t && '?' !in t && ' ' !in t && !IsSpace(t[0]) && !IsSpace(t[|t| - 1])
    ensures Tidy(t)
  {
    hide HasSuffix;
    assert t[0] in t && t[|t| - 1] in t;
    forall i | 0 <= i < |NULLABLE|
      ensures !HasSuffix(t, NULLABLE[i])
    {
      NoBarSuffix(t, NULLABLE[i]);
    }
  }

  lemma PrimitiveNames(t: string)
    requires t == "int" || t == "string" || t == "float64" || t == "UUID"
    ensures Canonical(t) == t
  {
    NoMarkTidy(t);
    hide Canonical, Tidy;
    assert t !in BYTE_SLICES;
    PlainCanonical(t);
  }

  lemma MorePrimitiveNames(t: string)
    requires t == "bool" || t == "any" || t == "Time" || t == "Duration"
    ensures Canonical(t) == t
  {
    NoMarkTidy(t);
    hide Canonical, Tidy;
    assert t !in BYTE_SLICES;
    PlainCanonical(t);
  }

  lemma ByteSliceTidy(k: nat)
    requires k < |BYTE_SLICES|
    ensures Tidy(BYTE_SLICES[k])
  {
    NoMarkTidy(BYTE_SLICES[k]);
  }

  lemma ByteSliceIsBytes(k: nat)
    requires k < |BYTE_SLICES|
    ensures Canonical(BYTE_SLICES[k]) == "bytes"
  {
    ByteSliceTidy(k);
    hide Canonical, Tidy, BYTE_SLICES;
    CanonicalTidy(BYTE_SLICES[k]);
  }

  lemma BytesName()
    ensures Canonical("[]byte") == Canonical("byte[]") == Canonical("Vec<u8>") == Canonical("Uint8List") == "bytes"
  {
    hide Canonical;
    ByteSliceIsBytes(0);
    ByteSliceIsBytes(1);
    ByteSliceIsBytes(2);
    ByteSliceIsBytes(3);
  }

  /** Of a qualified name only the last part counts. */
  lemma {:induction false} AfterDotMeans(prefix: string, t: string)
    requires '.' !in t
    ensures AfterDot(prefix + "." + t) == t && AfterDot(t) == t
    decreases |t|
  {
    var u := prefix + "." + t;
    NoDots(t);
    if t != "" {
      var n := |t| - 1;
      assert u[..|u| - 1] == prefix + "." + t[..n] && u[|u| - 1] == t[n];
      AfterDotMeans(prefix, t[..n]);
    }
  }

  /** So a package qualifier is dropped, whatever it is. */
  lemma PackageDropped(prefix: string, t: string)
    requires Tidy(prefix + "." + t) && prefix + "." + t !in BYTE_SLICES && '.' !in t
    requires prefix != "" && prefix[0] !in {'A', 'L', 'S', 'C', 'O', '['} && (t != "" ==> t[|t| - 1] != ']')
    ensures Canonical(prefix + "." + t) == t
  {
    hide AfterDot, Unwrap, Canonical, Tidy, BYTE_SLICES;
    var u := prefix + "." + t;
    assert u[0] == prefix[0] && u[|u| - 1] == if t == "" then '.' else t[|t| - 1];
    CanonicalTidy(u);
    UnwrapNothing(u);
    AfterDotMeans(prefix, t);
  }

  /** A pointer star, an optional mark and each nullable suffix are dropped. */
  lemma MarksDropped(t: string, k: nat)
    requires Plain(t) && k < |NULLABLE|
    ensures Canonical("*" + t) == t && Canonical(t + "?") == t && Canonical(t + NULLABLE[k]) == t
  {
    PlainCanonical(t);
    CleanPointer(t);
    CleanOptional(t);
    CleanNullable(t, k);
    TidyClean(t);
    hide Clean, Unwrap, AfterDot, BYTE_SLICES, NULLABLE;
  }

  /** The nullable suffixes by name. */
  lemma NullableTexts(t: string)
    requires Plain(t)
    ensures Canonical(t + "|null") == Canonical(t + "|None") == Canonical(t + "|undefined") == t
  {
    hide Canonical;
    MarksDropped(t, 0);
    MarksDropped(t, 1);
    MarksDropped(t, 2);
  }

  lemma CleanPointer(t: string)
    requires Tidy(t) && t != ""
    ensures Clean("*" + t) == t
  {
    hide NULLABLE, HasSuffix;
    var u := "*" + t;
    assert u[0] == '*' && u[|u| - 1] == t[|t| - 1] && u[1..] == t && u[..1] == "*";
    assert TrimSpace(u) == u && TrimPrefix(u, "*") == t;
    NotSuffix(t, "?");
    NoBlanks(t);
    NoSuffixes(t, NULLABLE);
    hide TrimLeft, TrimRight, DropBlanks, TrimSuffixes;
  }

  lemma CleanNullable(t: string, k: nat)
    requires Tidy(t) && t != "" && k < |NULLABLE|
    ensures Clean(t + NULLABLE[k]) == t
  {
    hide HasSuffix;
    var n := NULLABLE[k];
    var u := t + n;
    assert u[0] == t[0] && u[|u| - 1] == n[|n| - 1];
    assert TrimSpace(u) == u;
    NotPrefix(u, "*");
    NotSuffix(u, "?");
    assert ' ' !in n;
    NoBlanks(u);
    hide TrimLeft, TrimRight, DropBlanks;
    OneSuffix(t, k);
  }

  lemma OneSuffix(t: string, k: nat)
    requires k < |NULLABLE| && forall i :: 0 <= i < |NULLABLE| ==> !HasSuffix(t, NULLABLE[i])
    ensures TrimSuffixes(t + NULLABLE[k], NULLABLE) == t
  {
    hide HasSuffix;
    var n := NULLABLE[k];
    EndsInMark(t, n);
    forall i | 0 <= i < |NULLABLE| && i != k
      ensures !HasSuffix(t + n, NULLABLE[i])
    {
      NotSuffix(t + n, NULLABLE[i]);
    }
    SuffixAt(t + n, t, NULLABLE, k);
  }

  lemma {:induction false} SuffixAt(u: string, t: string, suffixes: seq<string>, k: nat)
    requires k < |suffixes| && TrimSuffix(u, suffixes[k]) == t
    requires forall i :: 0 <= i < k ==> !HasSuffix(u, suffixes[i])
    requires forall i :: k < i < |suffixes| ==> !HasSuffix(t, suffixes[i])
    ensures TrimSuffixes(u, suffixes) == t
    decreases |suffixes|
  {
    if k == 0 {
      NoSuffixes(t, suffixes[1..]);
    } else {
      SuffixAt(u, t, suffixes[1..], k - 1);
    }
  }
}
