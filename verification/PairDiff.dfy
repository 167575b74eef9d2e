/** internal/contracts/validate.go, diffPair: everything that is wrong between one provider and
    one consumer of a contract. */
module PairDiff {
  import opened Basics
  import opened Contracts
  import opened Matching
  import opened Assignability
  import opened ShapeDiff

  const RESPONSE_TYPE_UNKNOWN := "response_type_unknown"
  const REQUEST_TYPE_UNKNOWN := "request_type_unknown"

  /** Finds the fields of a type; the order and the duplicates of the declaration are kept. */
  type ShapeLookup = string -> Option<seq<Field>>

  predicate IsSymbolID(s: string)
  {
    exists i :: 0 <= i < |s| - 1 && s[i] == ':' && s[i + 1] == ':'
  }

  function MetaString(m: map<string, string>, key: string): string
  {
    if key in m then m[key] else ""
  }

  /** Bare names have no shape and are not looked up. */
  function ResolveShape(typeRef: string, lookup: ShapeLookup): Option<seq<Field>>
  {
    if IsSymbolID(typeRef) then lookup(typeRef) else None
  }

  datatype Direction = Response | Request

  function TypeKey(d: Direction): string
  {
    if d == Response then "response_type" else "request_type"
  }

  function UnknownKind(d: Direction): string
  {
    if d == Response then RESPONSE_TYPE_UNKNOWN else REQUEST_TYPE_UNKNOWN
  }

  function TypeOf(c: Contract, d: Direction): string
  {
    MetaString(c.meta, TypeKey(d))
  }

  /** A symbol whose shape is not indexed is reported; a bare name is not. */
  function Unknown(l: CrossLink, d: Direction, lookup: ShapeLookup): seq<Issue>
  {
    var provType, consType := TypeOf(l.provider, d), TypeOf(l.consumer, d);
    (if IsSymbolID(provType) && lookup(provType) == None
     then [Issue(l.contractId, UnknownKind(d), WARNING, l.provider.repoPrefix, "", "", provType, "")] else [])
    + (if IsSymbolID(consType) && lookup(consType) == None
       then [Issue(l.contractId, UnknownKind(d), WARNING, "", l.consumer.repoPrefix, "", "", consType)] else [])
  }

  /** Both sides name a type, and both types are indexed. */
  ghost predicate Comparable(l: CrossLink, d: Direction, lookup: ShapeLookup)
  {
    && TypeOf(l.provider, d) != "" && TypeOf(l.consumer, d) != ""
    && ResolveShape(TypeOf(l.provider, d), lookup).Some? && ResolveShape(TypeOf(l.consumer, d), lookup).Some?
  }

  function SiteOf(l: CrossLink, d: Direction): Site
  {
    Site(l.contractId, l.provider.repoPrefix, l.consumer.repoPrefix, TypeOf(l.provider, d), TypeOf(l.consumer, d))
  }

  function IssueOf(l: CrossLink, d: Direction, prov: Fields, cons: Fields): string -> Option<Issue>
  {
    if d == Response then ResponseIssueOf(SiteOf(l, d), prov, cons) else RequestIssueOf(SiteOf(l, d), prov, cons)
  }

  ghost function ProvidedFields(l: CrossLink, d: Direction, lookup: ShapeLookup): Fields
    requires Comparable(l, d, lookup)
  {
    Indexed(ResolveShape(TypeOf(l.provider, d), lookup).value)
  }

  ghost function ConsumedFields(l: CrossLink, d: Direction, lookup: ShapeLookup): Fields
    requires Comparable(l, d, lookup)
  {
    Indexed(ResolveShape(TypeOf(l.consumer, d), lookup).value)
  }

  /** What one direction contributes: unknown types first, then the differing fields. */
  ghost predicate Compared(l: CrossLink, d: Direction, lookup: ShapeLookup, issues: seq<Issue>)
  {
    if TypeOf(l.provider, d) == "" || TypeOf(l.consumer, d) == "" then issues == []
    else if !Comparable(l, d, lookup) then issues == Unknown(l, d, lookup)
    else Reports(issues, IssueOf(l, d, ProvidedFields(l, d, lookup), ConsumedFields(l, d, lookup)))
  }

  method Compare(l: CrossLink, d: Direction, lookup: ShapeLookup) returns (issues: seq<Issue>)
    ensures Compared(l, d, lookup, issues)
  {
    hide Reports;
    issues := [];
    var provType, consType := MetaString(l.provider.meta, TypeKey(d)), MetaString(l.consumer.meta, TypeKey(d));
    if provType == "" || consType == "" {
      return;
    }
    var provShape, consShape := ResolveShape(provType, lookup), ResolveShape(consType, lookup);
    if provShape == None && IsSymbolID(provType) {
      issues := issues + [Issue(l.contractId, UnknownKind(d), WARNING, l.provider.repoPrefix, "", "", provType, "")];
    }
    if consShape == None && IsSymbolID(consType) {
      issues := issues + [Issue(l.contractId, UnknownKind(d), WARNING, "", l.consumer.repoPrefix, "", "", consType)];
    }
    if provShape.Some? && consShape.Some? {
      var prov := IndexFields(provShape.value);
      var cons := IndexFields(consShape.value);
      var found;
      if d == Response {
        found := DiffResponseFields(SiteOf(l, d), prov, cons);
      } else {
        found := DiffRequestFields(SiteOf(l, d), prov, cons);
      }
      issues := issues + found;
      assert issues == found;
    }
  }

  /** The response direction, then the request direction. */
  ghost predicate Diffed(l: CrossLink, lookup: ShapeLookup, issues: seq<Issue>)
  {
    exists response, request ::
      issues == response + request && Compared(l, Response, lookup, response) && Compared(l, Request, lookup, request)
  }

  method DiffPair(l: CrossLink, lookup: ShapeLookup) returns (issues: seq<Issue>)
    ensures Diffed(l, lookup, issues)
  {
    hide Compared;
    var response := Compare(l, Response, lookup);
    var request := Compare(l, Request, lookup);
    issues := response + request;
  }

  // ---------------------------------------------------------------- when a pair is broken

  /** Some field on the reading side is unsafe: mandatory and not written, or of a type that
      cannot hold what is written. */
  ghost predicate ReaderBreaks(reader: Fields, writer: Fields)
  {
    exists name :: name in reader &&
      if name in writer then !CanAssign(reader[name].ftype, writer[name].ftype) else reader[name].required
  }

  /** The consumer reads responses, the provider reads requests. */
  ghost predicate Breaks(l: CrossLink, d: Direction, lookup: ShapeLookup)
  {
    && Comparable(l, d, lookup)
    && var prov, cons := ProvidedFields(l, d, lookup), ConsumedFields(l, d, lookup);
       if d == Response then ReaderBreaks(cons, prov) else ReaderBreaks(prov, cons)
  }

  ghost predicate HasSeverity(issues: seq<Issue>, severity: string)
  {
    exists i :: 0 <= i < |issues| && issues[i].severity == severity
  }

  lemma ReportBreaks(l: CrossLink, d: Direction, prov: Fields, cons: Fields, issues: seq<Issue>)
    requires Reports(issues, IssueOf(l, d, prov, cons))
    ensures HasSeverity(issues, BREAKING) <==> if d == Response then ReaderBreaks(cons, prov) else ReaderBreaks(prov, cons)
  {
    hide CanAssign;
    var issueOf := IssueOf(l, d, prov, cons);
    var reader, writer := if d == Response then cons else prov, if d == Response then prov else cons;
    if ReaderBreaks(reader, writer) {
      var name :| name in reader && if name in writer then !CanAssign(reader[name].ftype, writer[name].ftype) else reader[name].required;
      assert issueOf(name).Some? && issueOf(name).value.severity == BREAKING;
      assert issueOf(name).value in issues;
    }
    if i :| 0 <= i < |issues| && issues[i].severity == BREAKING {
      var name := issues[i].field;
      assert issueOf(name) == Some(issues[i]);
      assert name in reader && if name in writer then !CanAssign(reader[name].ftype, writer[name].ftype) else reader[name].required;
    }
  }

  lemma ComparedBreaks(l: CrossLink, d: Direction, lookup: ShapeLookup, issues: seq<Issue>)
    requires Compared(l, d, lookup, issues)
    ensures HasSeverity(issues, BREAKING) <==> Breaks(l, d, lookup)
  {
    hide Reports, ReaderBreaks, ResolveShape, IssueOf;
    if Comparable(l, d, lookup) {
      ReportBreaks(l, d, ProvidedFields(l, d, lookup), ConsumedFields(l, d, lookup), issues);
    }
  }

  /** A pair gets a breaking issue exactly when, in a direction where both types are known, the
      reading side has an unsafe field. */
  lemma PairBreaksIff(l: CrossLink, lookup: ShapeLookup, issues: seq<Issue>)
    requires Diffed(l, lookup, issues)
    ensures HasSeverity(issues, BREAKING) <==> Breaks(l, Response, lookup) || Breaks(l, Request, lookup)
  {
    hide Compared, Breaks;
    var response: seq<Issue>, request: seq<Issue> :|
      issues == response + request && Compared(l, Response, lookup, response) && Compared(l, Request, lookup, request);
    ComparedBreaks(l, Response, lookup, response);
    ComparedBreaks(l, Request, lookup, request);
    if i :| 0 <= i < |response| && response[i].severity == BREAKING {
      assert issues[i] == response[i];
    }
    if i :| 0 <= i < |request| && request[i].severity == BREAKING {
      assert issues[|response| + i] == request[i];
    }
  }

  // ---------------------------------------------------------------- which types are compared

  /** A type is looked up exactly when its name holds a double colon. */
  lemma SymbolIDMeans(s: string)
    ensures IsSymbolID(s) <==> exists a, b :: s == a + "::" + b
  {
    if i :| 0 <= i < |s| - 1 && s[i] == ':' && s[i + 1] == ':' {
      assert s == s[..i] + "::" + s[i + 2..];
    }
    if a, b :| s == a + "::" + b {
      assert s[|a|] == ':' && s[|a| + 1] == ':';
    }
  }

  ghost predicate AboutResponse(i: Issue)
  {
    i.kind in [RESPONSE_TYPE_UNKNOWN, RESPONSE_FIELD_REMOVED, RESPONSE_FIELD_TYPE_CHANGED, RESPONSE_FIELD_ADDED]
  }

  ghost predicate AboutRequest(i: Issue)
  {
    i.kind in [REQUEST_TYPE_UNKNOWN, REQUEST_FIELD_REQUIRED, REQUEST_FIELD_TYPE_CHANGED, REQUEST_FIELD_EXTRA]
  }

  lemma ComparedDirection(l: CrossLink, d: Direction, lookup: ShapeLookup, issues: seq<Issue>)
    requires Compared(l, d, lookup, issues)
    ensures forall i :: i in issues ==> if d == Response then AboutResponse(i) else AboutRequest(i)
  {
    hide CanAssign, ResolveShape;
    if Comparable(l, d, lookup) {
      var issueOf := IssueOf(l, d, ProvidedFields(l, d, lookup), ConsumedFields(l, d, lookup));
      forall i | i in issues
        ensures if d == Response then AboutResponse(i) else AboutRequest(i)
      {
        assert issueOf(i.field) == Some(i);
      }
    }
  }

  /** Some side has no entry of this name, or an empty one. */
  ghost predicate Untyped(l: CrossLink, key: string)
  {
    || key !in l.provider.meta || l.provider.meta[key] == ""
    || key !in l.consumer.meta || l.consumer.meta[key] == ""
  }

  /** The response issues come from response_type, the request issues from request_type: where a
      side lacks one, all issues are about the other. */
  lemma DirectionOfIssues(l: CrossLink, lookup: ShapeLookup, issues: seq<Issue>)
    requires Diffed(l, lookup, issues)
    ensures Untyped(l, "request_type") ==> forall i :: i in issues ==> AboutResponse(i)
    ensures Untyped(l, "response_type") ==> forall i :: i in issues ==> AboutRequest(i)
  {
    hide AboutResponse, AboutRequest, Comparable, Reports, Unknown;
    var response: seq<Issue>, request: seq<Issue> :|
      issues == response + request && Compared(l, Response, lookup, response) && Compared(l, Request, lookup, request);
    ComparedDirection(l, Response, lookup, response);
    ComparedDirection(l, Request, lookup, request);
    assert Untyped(l, "request_type") ==> request == [];
    assert Untyped(l, "response_type") ==> response == [];
  }

  // ---------------------------------------------------------------- what a pair's issues look like

  /** Field and type issues of one contract, with one of the three severities. */
  predicate PairIssue(id: string, i: Issue)
  {
    && i.contractId == id && (i.severity == BREAKING || i.severity == WARNING || i.severity == INFO)
    && i.kind in [RESPONSE_TYPE_UNKNOWN, REQUEST_TYPE_UNKNOWN, RESPONSE_FIELD_REMOVED, RESPONSE_FIELD_TYPE_CHANGED,
                  RESPONSE_FIELD_ADDED, REQUEST_FIELD_REQUIRED, REQUEST_FIELD_TYPE_CHANGED, REQUEST_FIELD_EXTRA]
  }

  lemma ComparedIssues(l: CrossLink, d: Direction, lookup: ShapeLookup, issues: seq<Issue>)
    requires Compared(l, d, lookup, issues)
    ensures forall i :: i in issues ==> PairIssue(l.contractId, i)
  {
    hide CanAssign, ResolveShape;
    if Comparable(l, d, lookup) {
      var issueOf := IssueOf(l, d, ProvidedFields(l, d, lookup), ConsumedFields(l, d, lookup));
      forall i | i in issues
        ensures PairIssue(l.contractId, i)
      {
        assert issueOf(i.field) == Some(i);
      }
    }
  }

  lemma DiffedIssues(l: CrossLink, lookup: ShapeLookup, issues: seq<Issue>)
    requires Diffed(l, lookup, issues)
    ensures forall i :: i in issues ==> PairIssue(l.contractId, i)
  {
    hide Compared, PairIssue;
    var response: seq<Issue>, request: seq<Issue> :|
      issues == response + request && Compared(l, Response, lookup, response) && Compared(l, Request, lookup, request);
    ComparedIssues(l, Response, lookup, response);
    ComparedIssues(l, Request, lookup, request);
  }
}
