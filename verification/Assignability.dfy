/** internal/contracts/validate.go, canAssign: may a value of one type be held in a slot of
    another? Type names are compared by canonical form and by wire-format category. */
module Assignability {
  import opened TypeNames

  datatype Category = Str | Bool | Int | Float | AnyValue | Time | Duration | Bytes | Uuid | UserDefined

  const STR := ["string", "String", "str", "text", "Text"]
  const BOOL := ["bool", "Bool", "boolean", "Boolean"]
  const INT := ["int", "Int", "Integer", "Long", "long", "Short", "short", "Byte", "byte",
                "int8", "int16", "int32", "int64", "Int8", "Int16", "Int32", "Int64",
                "uint", "uint8", "uint16", "uint32", "uint64",
                "i8", "i16", "i32", "i64", "u8", "u16", "u32", "u64", "BigInt", "bigint"]
  const FLOAT := ["float", "Float", "double", "Double", "Number", "number", "float32", "float64",
                  "f32", "f64", "Decimal", "decimal", "BigDecimal"]
  const ANY := ["any", "Any", "object", "Object", "Dynamic", "dynamic", "interface{}",
                "JSON", "json", "Value", "JsonNode", "RawMessage"]
  const TIME := ["Time", "DateTime", "Instant", "LocalDateTime", "ZonedDateTime", "OffsetDateTime",
                 "NaiveDateTime", "Date", "LocalDate", "datetime", "date", "Timestamp", "timestamp"]
  const DURATION := ["Duration", "duration", "timedelta", "Period"]
  const BYTES := ["[]byte", "bytes", "Bytes", "ByteString", "Uint8List", "Vec<u8>", "byte[]"]
  const UUID := ["UUID", "Uuid", "Guid", "GUID"]

  const CATEGORIES: seq<(seq<string>, Category)> :=
    [(STR, Str), (BOOL, Bool), (INT, Int), (FLOAT, Float), (ANY, AnyValue), (TIME, Time),
     (DURATION, Duration), (BYTES, Bytes), (UUID, Uuid)]

  function FindCategory(t: string, table: seq<(seq<string>, Category)>): Category
    decreases |table|
  {
    if table == [] then UserDefined
    else if t in table[0].0 then table[0].1
    else FindCategory(t, table[1..])
  }

  /** primitiveCategory; a name listed nowhere is a user-defined type. */
  function PrimitiveCategory(t: string): Category
  {
    FindCategory(t, CATEGORIES)
  }

  predicate CanAssign(to: string, from: string)
  {
    var toCanon, fromCanon := Canonical(to), Canonical(from);
    var toCat, fromCat := PrimitiveCategory(toCanon), PrimitiveCategory(fromCanon);
    if toCanon == fromCanon then true
    else if toCat == AnyValue then true
    else if fromCat == AnyValue then false
    else if toCat == UserDefined || fromCat == UserDefined then false
    else if toCat == fromCat then true
    else if toCat == Float && fromCat == Int then true
    else if toCat == Str && fromCat == Uuid then true
    else if toCat == Str && fromCat == Bytes then true
    else false
  }

  // ---------------------------------------------------------------- what travels on the wire

  /** The forms a value can take in a message: texts by what they encode, numbers with and without
      a fraction, and the structure of a user-defined type. */
  datatype WireForm =
    | PlainText | UuidText | Base64Text | InstantText | DurationText
    | TruthValue | WholeNumber | FractionNumber | Structure(name: string)

  /** The forms that values of a type take, the type given by its canonical name. */
  predicate Carries(name: string, f: WireForm)
  {
    match PrimitiveCategory(name)
    case Str => f == PlainText || f == UuidText || f == Base64Text
    case Bool => f == TruthValue
    case Int => f == WholeNumber
    case Float => f == WholeNumber || f == FractionNumber
    case AnyValue => true
    case Time => f == InstantText
    case Duration => f == DurationText
    case Bytes => f == Base64Text
    case Uuid => f == UuidText
    case UserDefined => f == Structure(name)
  }

  /** A slot can be assigned a type exactly when it takes every form that the type's values take. */
  lemma AssignMeansInclusion(to: string, from: string)
    ensures CanAssign(to, from) <==> forall f :: Carries(Canonical(from), f) ==> Carries(Canonical(to), f)
  {
    hide Canonical, PrimitiveCategory;
    if forall f :: Carries(Canonical(from), f) ==> Carries(Canonical(to), f) {
      var a, b := Canonical(to), Canonical(from);
      assert Carries(b, Structure(b)) ==> Carries(a, Structure(b));
      assert Carries(b, Structure(a + "x")) ==> Carries(a, Structure(a + "x"));
      assert Carries(b, PlainText) ==> Carries(a, PlainText);
      assert Carries(b, FractionNumber) ==> Carries(a, FractionNumber);
      assert Carries(b, WholeNumber) ==> Carries(a, WholeNumber);
      assert Carries(b, UuidText) ==> Carries(a, UuidText);
      assert Carries(b, Base64Text) ==> Carries(a, Base64Text);
      assert Carries(b, InstantText) ==> Carries(a, InstantText);
      assert Carries(b, DurationText) ==> Carries(a, DurationText);
      assert Carries(b, TruthValue) ==> Carries(a, TruthValue);
      assert a + "x" != a;
    }
  }

  // ---------------------------------------------------------------- a preorder

  lemma AssignReflexive(t: string)
    ensures CanAssign(t, t)
  {
  }

  /** What fits into a slot that fits into another fits into the other. */
  lemma AssignTransitive(a: string, b: string, c: string)
    requires CanAssign(a, b) && CanAssign(b, c)
    ensures CanAssign(a, c)
  {
    hide Canonical, PrimitiveCategory;
  }

  /** Two types fit into each other exactly when they have one canonical name or one category. */
  lemma AssignBothWays(a: string, b: string)
    ensures CanAssign(a, b) && CanAssign(b, a) <==>
      || Canonical(a) == Canonical(b)
      || (PrimitiveCategory(Canonical(a)) == PrimitiveCategory(Canonical(b)) != UserDefined)
  {
    hide Canonical, PrimitiveCategory;
  }

  ghost predicate Unmarked(t: string)
  {
    Clean(t) == DropBlanks(t) && Clean(t) !in BYTE_SLICES
  }

  /** Which containers are used never matters, whatever the element texts; and if these have no
      marks for Clean to drop and are no byte slices, neither does it whether any are used. */
  lemma AssignThroughContainers(to: string, from: string, i: nat, j: nat, k: nat, l: nat)
    requires i < |CONTAINERS| && j < |CONTAINERS| && k < |CONTAINERS| && l < |CONTAINERS|
    ensures CanAssign(InContainer(to, i), InContainer(from, j)) <==> CanAssign(InContainer(to, k), InContainer(from, l))
    ensures Unmarked(to) && Unmarked(from) ==>
      (CanAssign(InContainer(to, i), InContainer(from, j)) <==> CanAssign(to, from))
  {
    hide Canonical, PrimitiveCategory, InContainer, Clean, DropBlanks, BYTE_SLICES, CONTAINERS, BareName;
    ContainerName(to, i);
    ContainerName(to, k);
    ContainerName(from, j);
    ContainerName(from, l);
    ContainerNamedAfterElement(to, i);
    ContainerNamedAfterElement(from, j);
  }

  // ---------------------------------------------------------------- at real names

  lemma {:induction false} FoundAt(t: string, table: seq<(seq<string>, Category)>, n: nat)
    requires n < |table| && t in table[n].0 && forall i :: 0 <= i < n ==> t !in table[i].0
    ensures FindCategory(t, table) == table[n].1
    decreases |table|
  {
    if n > 0 {
      FoundAt(t, table[1..], n - 1);
    }
  }

  /** Lists whose names all miss a text in one position do not hold it. */
  lemma Missing(t: string, list: seq<string>, k: nat)
    requires k < |t| && forall i :: 0 <= i < |list| ==> |list[i]| != |t| || list[i][k] != t[k]
    ensures t !in list
  {
  }

  lemma CategoryAt(t: string, n: nat)
    requires n < |CATEGORIES| && t in CATEGORIES[n].0 && forall i :: 0 <= i < n ==> t !in CATEGORIES[i].0
    ensures PrimitiveCategory(t) == CATEGORIES[n].1
  {
    FoundAt(t, CATEGORIES, n);
  }

  lemma StringCategory()
    ensures PrimitiveCategory("string") == Str
  {
    assert "string" == STR[0];
    hide STR, BOOL, INT, FLOAT, ANY, TIME, DURATION, BYTES, UUID;
    CategoryAt("string", 0);
  }

  lemma IntCategory()
    ensures PrimitiveCategory("int") == Int
  {
    Missing("int", STR, 0);
    Missing("int", BOOL, 0);
    assert "int" == INT[0];
    hide STR, BOOL, INT, FLOAT, ANY, TIME, DURATION, BYTES, UUID;
    CategoryAt("int", 2);
  }

  lemma FloatCategory()
    ensures PrimitiveCategory("float64") == Float
  {
    Missing("float64", STR, 0);
    Missing("float64", BOOL, 0);
    Missing("float64", INT, 0);
    assert "float64" == FLOAT[7];
    hide STR, BOOL, INT, FLOAT, ANY, TIME, DURATION, BYTES, UUID;
    CategoryAt("float64", 3);
  }

  lemma BytesCategory()
    ensures PrimitiveCategory("bytes") == Bytes
  {
    Missing("bytes", STR, 4);
    Missing("bytes", BOOL, 4);
    Missing("bytes", INT, 4);
    Missing("bytes", FLOAT, 4);
    Missing("bytes", ANY, 4);
    Missing("bytes", TIME, 4);
    Missing("bytes", DURATION, 4);
    assert "bytes" == BYTES[1];
    hide STR, BOOL, INT, FLOAT, ANY, TIME, DURATION, BYTES, UUID;
    CategoryAt("bytes", 7);
  }

  lemma UuidCategory()
    ensures PrimitiveCategory("UUID") == Uuid
  {
    Missing("UUID", STR, 1);
    Missing("UUID", BOOL, 1);
    Missing("UUID", INT, 1);
    Missing("UUID", FLOAT, 1);
    Missing("UUID", ANY, 1);
    Missing("UUID", TIME, 1);
    Missing("UUID", DURATION, 1);
    Missing("UUID", BYTES, 1);
    assert "UUID" == UUID[0];
    hide STR, BOOL, INT, FLOAT, ANY, TIME, DURATION, BYTES, UUID;
    CategoryAt("UUID", 8);
  }

  lemma BoolCategory()
    ensures PrimitiveCategory("bool") == Bool
  {
    Missing("bool", STR, 0);
    assert "bool" == BOOL[0];
    hide STR, BOOL, INT, FLOAT, ANY, TIME, DURATION, BYTES, UUID;
    CategoryAt("bool", 1);
  }

  lemma AnyCategory()
    ensures PrimitiveCategory("any") == AnyValue
  {
    Missing("any", STR, 0);
    Missing("any", BOOL, 0);
    Missing("any", INT, 0);
    Missing("any", FLOAT, 0);
    assert "any" == ANY[0];
    hide STR, BOOL, INT, FLOAT, ANY, TIME, DURATION, BYTES, UUID;
    CategoryAt("any", 4);
  }

  lemma TimeCategory()
    ensures PrimitiveCategory("Time") == Time
  {
    Missing("Time", STR, 1);
    Missing("Time", BOOL, 0);
    Missing("Time", INT, 0);
    Missing("Time", FLOAT, 0);
    Missing("Time", ANY, 0);
    assert "Time" == TIME[0];
    hide STR, BOOL, INT, FLOAT, ANY, TIME, DURATION, BYTES, UUID;
    CategoryAt("Time", 5);
  }

  lemma DurationCategory()
    ensures PrimitiveCategory("Duration") == Duration
  {
    Missing("Duration", STR, 0);
    Missing("Duration", BOOL, 0);
    Missing("Duration", INT, 0);
    Missing("Duration", FLOAT, 0);
    Missing("Duration", ANY, 0);
    Missing("Duration", TIME, 1);
    assert "Duration" == DURATION[0];
    hide STR, BOOL, INT, FLOAT, ANY, TIME, DURATION, BYTES, UUID;
    CategoryAt("Duration", 6);
  }

  /** A float slot holds an int, a string slot holds UUIDs and bytes, and never the other way round. */
  lemma WideningIsOneWay()
    ensures CanAssign("float64", "int") && !CanAssign("int", "float64")
    ensures CanAssign("string", "UUID") && !CanAssign("UUID", "string")
    ensures CanAssign("string", "[]byte") && !CanAssign("[]byte", "string")
  {
    StringCategory();
    IntCategory();
    FloatCategory();
    BytesCategory();
    UuidCategory();
    hide Canonical, PrimitiveCategory;
    PrimitiveNames("int");
    PrimitiveNames("string");
    PrimitiveNames("float64");
    PrimitiveNames("UUID");
    BytesName();
  }

  lemma IntIsNoString()
    ensures !CanAssign("int", "string")
  {
    StringCategory();
    IntCategory();
    hide Canonical, PrimitiveCategory;
    PrimitiveNames("int");
    PrimitiveNames("string");
  }

  /** Instants, durations and truth values mix with nothing else; a universal slot holds every
      type, and a value of universal type fits no other. */
  lemma OthersStayApart(t: string)
    ensures !CanAssign("Time", "Duration") && !CanAssign("Duration", "Time")
    ensures !CanAssign("bool", "int") && !CanAssign("int", "bool") && !CanAssign("string", "Time") && !CanAssign("Time", "string")
    ensures CanAssign("any", t) && (CanAssign(t, "any") ==> CanAssign(t, "Time") && CanAssign(t, "bool"))
  {
    BoolCategory();
    AnyCategory();
    TimeCategory();
    DurationCategory();
    StringCategory();
    IntCategory();
    hide Canonical, PrimitiveCategory;
    PrimitiveNames("int");
    PrimitiveNames("string");
    MorePrimitiveNames("bool");
    MorePrimitiveNames("any");
    MorePrimitiveNames("Time");
    MorePrimitiveNames("Duration");
  }
}
