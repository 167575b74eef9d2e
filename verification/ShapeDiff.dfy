/** internal/contracts/validate.go: field-by-field comparison of a provider's and a consumer's
    types, in the response and in the request direction. */
module ShapeDiff {
  import opened Basics
  import opened Assignability

  datatype Field = Field(name: string, ftype: string, required: bool)

  type Fields = map<string, Field>

  datatype Issue = Issue(
    contractId: string,
    kind: string,
    severity: string,
    provider: string,
    consumer: string,
    field: string,
    providerType: string,
    consumerType: string)

  const BREAKING := "breaking"
  const WARNING := "warning"
  const INFO := "info"

  const RESPONSE_FIELD_REMOVED := "response_field_removed"
  const RESPONSE_FIELD_TYPE_CHANGED := "response_field_type_changed"
  const RESPONSE_FIELD_ADDED := "response_field_added"
  const REQUEST_FIELD_REQUIRED := "request_field_required_missing"
  const REQUEST_FIELD_TYPE_CHANGED := "request_field_type_changed"
  const REQUEST_FIELD_EXTRA := "request_field_extra"

  // ---------------------------------------------------------------- fields by name

  /** Position i holds the last field of that name. */
  ghost predicate LastOfName(fields: seq<Field>, name: string, i: int)
  {
    0 <= i < |fields| && fields[i].name == name && forall j :: i < j < |fields| ==> fields[j].name != name
  }

  /** The fields by name; of two with one name the later counts. */
  method IndexFields(fields: seq<Field>) returns (out: Fields)
    ensures forall name :: name in out <==> exists f :: f in fields && f.name == name
    ensures forall name :: name in out ==> exists i :: LastOfName(fields, name, i) && out[name] == fields[i]
    ensures out == Indexed(fields)
  {
    out := map[];
    for i := 0 to |fields|
      invariant out == Indexed(fields[..i])
    {
      assert fields[..i + 1][..i] == fields[..i];
      out := out[fields[i].name := fields[i]];
    }
    assert fields[..|fields|] == fields;
    IndexedMeans(fields);
  }

  function Indexed(fields: seq<Field>): Fields
  {
    if fields == [] then map[]
    else
      var last := fields[|fields| - 1];
      Indexed(fields[..|fields| - 1])[last.name := last]
  }

  lemma {:induction false} IndexedMeans(fields: seq<Field>)
    ensures forall name :: name in Indexed(fields) <==> exists f :: f in fields && f.name == name
    ensures forall name :: name in Indexed(fields) ==> exists i :: LastOfName(fields, name, i) && Indexed(fields)[name] == fields[i]
    decreases |fields|
  {
    if fields != [] {
      var n := |fields| - 1;
      var front, last := fields[..n], fields[n];
      IndexedMeans(front);
      assert fields == front + [last];
      forall name | name in Indexed(fields)
        ensures exists i :: LastOfName(fields, name, i) && Indexed(fields)[name] == fields[i]
      {
        if name == last.name {
          assert LastOfName(fields, name, n);
        } else {
          assert name in Indexed(front);
          var i :| LastOfName(front, name, i) && Indexed(front)[name] == front[i];
          assert LastOfName(fields, name, i);
        }
      }
      forall name
        ensures name in Indexed(fields) <==> exists f :: f in fields && f.name == name
      {
        if f :| f in front && f.name == name {
          assert f in fields;
        }
      }
    }
  }

  // ---------------------------------------------------------------- what each direction reports

  /** Where a comparison takes place: the contract, the two repositories, the two types. */
  datatype Site = Site(contractId: string, provider: string, consumer: string, providerType: string, consumerType: string)

  function Found(site: Site, kind: string, severity: string, field: string): Issue
  {
    Issue(site.contractId, kind, severity, site.provider, site.consumer, field, site.providerType, site.consumerType)
  }

  /** The issue a field name gives rise to when the provider writes and the consumer reads. */
  function ResponseIssue(site: Site, prov: Fields, cons: Fields, name: string): Option<Issue>
  {
    if name in cons then
      if name !in prov then
        Some(Found(site, RESPONSE_FIELD_REMOVED, if cons[name].required then BREAKING else WARNING, name))
      else if !CanAssign(cons[name].ftype, prov[name].ftype) then
        Some(Found(site, RESPONSE_FIELD_TYPE_CHANGED, BREAKING, name))
      else None
    else if name in prov then Some(Found(site, RESPONSE_FIELD_ADDED, INFO, name))
    else None
  }

  /** The issue a field name gives rise to when the consumer writes and the provider reads. */
  function RequestIssue(site: Site, prov: Fields, cons: Fields, name: string): Option<Issue>
  {
    if name in prov then
      if name !in cons then
        if prov[name].required then Some(Found(site, REQUEST_FIELD_REQUIRED, BREAKING, name)) else None
      else if !CanAssign(prov[name].ftype, cons[name].ftype) then
        Some(Found(site, REQUEST_FIELD_TYPE_CHANGED, BREAKING, name))
      else None
    else if name in cons then Some(Found(site, REQUEST_FIELD_EXTRA, INFO, name))
    else None
  }

  /** The list holds the issue of every name, once, and nothing else. */
  ghost predicate Reports(issues: seq<Issue>, issueOf: string -> Option<Issue>)
  {
    ReportsOn(issues, issueOf, _ => true)
  }

  /** The same for the names in scope only. */
  ghost predicate ReportsOn(issues: seq<Issue>, issueOf: string -> Option<Issue>, scope: string -> bool)
  {
    && (forall i :: 0 <= i < |issues| ==> scope(issues[i].field) && issueOf(issues[i].field) == Some(issues[i]))
    && (forall i, j :: 0 <= i < j < |issues| ==> issues[i].field != issues[j].field)
    && (forall name {:trigger issueOf(name)} :: scope(name) && issueOf(name).Some? ==> issueOf(name).value in issues)
  }

  /** One more name has been looked at. */
  lemma ReportsMore(issues: seq<Issue>, issueOf: string -> Option<Issue>, scope: string -> bool, more: string -> bool, name: string)
    requires ReportsOn(issues, issueOf, scope) && !scope(name)
    requires forall x :: more(x) <==> scope(x) || x == name
    requires issueOf(name).Some? ==> issueOf(name).value.field == name
    ensures ReportsOn(if issueOf(name).Some? then issues + [issueOf(name).value] else issues, issueOf, more)
  {
    var issues' := if issueOf(name).Some? then issues + [issueOf(name).value] else issues;
    forall x | more(x) && issueOf(x).Some?
      ensures issueOf(x).value in issues'
    {
      if x == name {
        assert issues'[|issues|] == issueOf(x).value;
      }
    }
  }

  lemma ReportsSame(issues: seq<Issue>, issueOf: string -> Option<Issue>, scope: string -> bool, more: string -> bool)
    requires ReportsOn(issues, issueOf, scope)
    requires forall x :: (scope(x) ==> more(x)) && (more(x) && !scope(x) ==> issueOf(x) == None)
    ensures ReportsOn(issues, issueOf, more)
  {
  }

  function ResponseIssueOf(site: Site, prov: Fields, cons: Fields): string -> Option<Issue>
  {
    name => ResponseIssue(site, prov, cons, name)
  }

  function RequestIssueOf(site: Site, prov: Fields, cons: Fields): string -> Option<Issue>
  {
    name => RequestIssue(site, prov, cons, name)
  }

  function Seen(names: set<string>, left: set<string>): string -> bool
  {
    x => x in names && x !in left
  }

  /** diffResponseFields. The maps are walked in an arbitrary order. */
  method DiffResponseFields(site: Site, provFields: Fields, consFields: Fields) returns (issues: seq<Issue>)
    ensures Reports(issues, ResponseIssueOf(site, provFields, consFields))
  {
    hide ReportsOn, CanAssign;
    ghost var issueOf := ResponseIssueOf(site, provFields, consFields);
    issues := [];
    var left := consFields.Keys;
    NothingSeen(issueOf, consFields.Keys);
    while left != {}
      invariant left <= consFields.Keys
      invariant ReportsOn(issues, issueOf, Seen(consFields.Keys, left))
      decreases left
    {
      var name :| name in left;
      ReportsMore(issues, issueOf, Seen(consFields.Keys, left), Seen(consFields.Keys, left - {name}), name);
      left := left - {name};
      if name !in provFields {
        var severity := BREAKING;
        if !consFields[name].required {
          severity := WARNING;
        }
        issues := issues + [Found(site, RESPONSE_FIELD_REMOVED, severity, name)];
        continue;
      }
      if !CanAssign(consFields[name].ftype, provFields[name].ftype) {
        issues := issues + [Found(site, RESPONSE_FIELD_TYPE_CHANGED, BREAKING, name)];
      }
    }
    issues := AddedFields(issues, issueOf, site, RESPONSE_FIELD_ADDED, provFields, consFields);
  }

  /** diffRequestFields. */
  method DiffRequestFields(site: Site, provFields: Fields, consFields: Fields) returns (issues: seq<Issue>)
    ensures Reports(issues, RequestIssueOf(site, provFields, consFields))
  {
    hide ReportsOn, CanAssign;
    ghost var issueOf := RequestIssueOf(site, provFields, consFields);
    issues := [];
    var left := provFields.Keys;
    NothingSeen(issueOf, provFields.Keys);
    while left != {}
      invariant left <= provFields.Keys
      invariant ReportsOn(issues, issueOf, Seen(provFields.Keys, left))
      decreases left
    {
      var name :| name in left;
      ReportsMore(issues, issueOf, Seen(provFields.Keys, left), Seen(provFields.Keys, left - {name}), name);
      left := left - {name};
      if name !in consFields {
        if provFields[name].required {
          issues := issues + [Found(site, REQUEST_FIELD_REQUIRED, BREAKING, name)];
        }
        continue;
      }
      if !CanAssign(provFields[name].ftype, consFields[name].ftype) {
        issues := issues + [Found(site, REQUEST_FIELD_TYPE_CHANGED, BREAKING, name)];
      }
    }
    issues := AddedFields(issues, issueOf, site, REQUEST_FIELD_EXTRA, consFields, provFields);
  }

  lemma NothingSeen(issueOf: string -> Option<Issue>, names: set<string>)
    ensures ReportsOn([], issueOf, Seen(names, names))
  {
  }

  /** The second loop of both: fields that the writer has and the reader does not know. */
  method AddedFields(issues0: seq<Issue>, ghost issueOf: string -> Option<Issue>, site: Site, kind: string, writer: Fields, reader: Fields)
    returns (issues: seq<Issue>)
    requires ReportsOn(issues0, issueOf, Seen(reader.Keys, {}))
    requires forall name :: name !in reader ==> issueOf(name) == if name in writer then Some(Found(site, kind, INFO, name)) else None
    ensures Reports(issues, issueOf)
  {
    hide ReportsOn;
    issues := issues0;
    var left := writer.Keys;
    ReportsSame(issues, issueOf, Seen(reader.Keys, {}), x => x !in left || x in reader);
    while left != {}
      invariant left <= writer.Keys
      invariant ReportsOn(issues, issueOf, x => x !in left || x in reader)
      decreases left
    {
      var name :| name in left;
      ghost var was := left;
      left := left - {name};
      if name !in reader {
        ReportsMore(issues, issueOf, x => x !in was || x in reader, x => x !in left || x in reader, name);
        issues := issues + [Found(site, kind, INFO, name)];
      } else {
        ReportsSame(issues, issueOf, x => x !in was || x in reader, x => x !in left || x in reader);
      }
    }
    ReportsSame(issues, issueOf, x => x !in left || x in reader, _ => true);
  }

  // ---------------------------------------------------------------- response compatibility composes

  /** Every field the consumer reads is written, with a type it can hold. */
  ghost predicate ResponseCompatible(prov: Fields, cons: Fields)
  {
    forall name :: name in cons ==> name in prov && CanAssign(cons[name].ftype, prov[name].ftype)
  }

  ghost predicate HasKind(issues: seq<Issue>, kind: string)
  {
    exists i :: 0 <= i < |issues| && issues[i].kind == kind
  }

  /** No removed and no type-changed fields are reported exactly when the types are compatible. */
  lemma ResponseVerdict(site: Site, prov: Fields, cons: Fields, issues: seq<Issue>)
    requires Reports(issues, ResponseIssueOf(site, prov, cons))
    ensures !HasKind(issues, RESPONSE_FIELD_REMOVED) && !HasKind(issues, RESPONSE_FIELD_TYPE_CHANGED)
      <==> ResponseCompatible(prov, cons)
  {
    hide CanAssign;
    var issueOf := ResponseIssueOf(site, prov, cons);
    if !ResponseCompatible(prov, cons) {
      var name :| name in cons && !(name in prov && CanAssign(cons[name].ftype, prov[name].ftype));
      assert issueOf(name).Some?;
      assert issueOf(name).value in issues;
    } else {
      forall i | 0 <= i < |issues|
        ensures issues[i].kind != RESPONSE_FIELD_REMOVED && issues[i].kind != RESPONSE_FIELD_TYPE_CHANGED
      {
        assert issueOf(issues[i].field) == Some(issues[i]);
      }
    }
  }

  /** If P serves M and M serves C without removed or type-changed fields, then P serves C so too. */
  lemma ResponseComposes(p: Fields, m: Fields, c: Fields, pm: Site, mc: Site, pc: Site,
                         issuesPM: seq<Issue>, issuesMC: seq<Issue>, issuesPC: seq<Issue>)
    requires Reports(issuesPM, ResponseIssueOf(pm, p, m)) && Reports(issuesMC, ResponseIssueOf(mc, m, c))
    requires Reports(issuesPC, ResponseIssueOf(pc, p, c))
    requires !HasKind(issuesPM, RESPONSE_FIELD_REMOVED) && !HasKind(issuesPM, RESPONSE_FIELD_TYPE_CHANGED)
    requires !HasKind(issuesMC, RESPONSE_FIELD_REMOVED) && !HasKind(issuesMC, RESPONSE_FIELD_TYPE_CHANGED)
    ensures !HasKind(issuesPC, RESPONSE_FIELD_REMOVED) && !HasKind(issuesPC, RESPONSE_FIELD_TYPE_CHANGED)
  {
    hide CanAssign, Reports, HasKind;
    ResponseVerdict(pm, p, m, issuesPM);
    ResponseVerdict(mc, m, c, issuesMC);
    ResponseVerdict(pc, p, c, issuesPC);
    forall name | name in c
      ensures name in p && CanAssign(c[name].ftype, p[name].ftype)
    {
      AssignTransitive(c[name].ftype, m[name].ftype, p[name].ftype);
    }
  }

  // ---------------------------------------------------------------- request compatibility does not

  ghost predicate RequestCompatible(prov: Fields, cons: Fields)
  {
    forall name :: name in prov ==>
      if name in cons then CanAssign(prov[name].ftype, cons[name].ftype) else !prov[name].required
  }

  lemma RequestVerdict(site: Site, prov: Fields, cons: Fields, issues: seq<Issue>)
    requires Reports(issues, RequestIssueOf(site, prov, cons))
    ensures !HasKind(issues, REQUEST_FIELD_REQUIRED) && !HasKind(issues, REQUEST_FIELD_TYPE_CHANGED)
      <==> RequestCompatible(prov, cons)
  {
    hide CanAssign;
    var issueOf := RequestIssueOf(site, prov, cons);
    if !RequestCompatible(prov, cons) {
      var name :| name in prov && !(if name in cons then CanAssign(prov[name].ftype, cons[name].ftype) else !prov[name].required);
      assert issueOf(name).Some?;
      assert issueOf(name).value in issues;
    } else {
      forall i | 0 <= i < |issues|
        ensures issues[i].kind != REQUEST_FIELD_REQUIRED && issues[i].kind != REQUEST_FIELD_TYPE_CHANGED
      {
        assert issueOf(issues[i].field) == Some(issues[i]);
      }
    }
  }

  /** A field that only the middle leaves out, or that only the middle adds, is not checked on the way. */
  ghost predicate Bypassed(p: Fields, m: Fields, c: Fields, name: string)
  {
    || (name in p && name !in m && name in c && !CanAssign(p[name].ftype, c[name].ftype))
    || (name in p && name in m && name !in c && p[name].required)
  }

  /** C sends to M and M sends to P without breaks: then C may send to P exactly when no field
      goes round the middle. */
  lemma RequestComposesIff(p: Fields, m: Fields, c: Fields)
    requires RequestCompatible(p, m) && RequestCompatible(m, c)
    ensures RequestCompatible(p, c) <==> forall name :: !Bypassed(p, m, c, name)
  {
    hide CanAssign;
    if forall name :: !Bypassed(p, m, c, name) {
      forall name | name in p
        ensures if name in c then CanAssign(p[name].ftype, c[name].ftype) else !p[name].required
      {
        assert !Bypassed(p, m, c, name);
        if name in m && name in c {
          AssignTransitive(p[name].ftype, m[name].ftype, c[name].ftype);
        }
      }
    }
  }

  /** Both kinds of bypass happen. */
  lemma RequestDoesNotCompose() returns (p: Fields, m: Fields, c: Fields, p': Fields, m': Fields, c': Fields)
    ensures RequestCompatible(p, m) && RequestCompatible(m, c) && !RequestCompatible(p, c)
    ensures RequestCompatible(p', m') && RequestCompatible(m', c') && !RequestCompatible(p', c')
  {
    var mandatory, optional := Field("x", "int", true), Field("x", "int", false);
    AssignReflexive("int");
    IntIsNoString();
    hide CanAssign;
    p, m, c := map["x" := mandatory], map["x" := optional], map[];
    p', m', c' := map["x" := optional], map[], map["x" := Field("x", "string", false)];
    assert "x" in p && "x" in p';
  }
}
