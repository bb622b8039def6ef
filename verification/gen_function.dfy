/** The `Function` descriptor a definition fills in: the prototype, the body
    template, the instantiation types and the two attribute flags. Only
    those five fields may be assigned; `types` entries are parsed at
    assignment, so a bad type fails there. */
module GenFunction {
  import opened Results
  import opened Text
  import opened GenTypes
  import opened GenParser
  import opened GenErrors
  import opened GenRoundTrip

  /** The Python values a definition assigns. */
  datatype Value = Str(s: string) | StrList(items: seq<string>) | Bool(b: bool) | Proto(p: Prototype)

  /** Python truthiness of a value. */
  predicate Truthy(v: Value) {
    match v
    case Str(s) => |s| > 0
    case StrList(items) => |items| > 0
    case Bool(b) => b
    case Proto(_) => true
  }

  function QuotedList(items: seq<string>): string {
    if |items| == 0 then ""
    else if |items| == 1 then "'" + items[0] + "'"
    else "'" + items[0] + "', " + QuotedList(items[1..])
  }

  /** Python's `str()` of a value stored in `proto`. */
  function ShowValue(v: Value): string {
    match v
    case Str(s) => s
    case StrList(items) => "[" + QuotedList(items) + "]"
    case Bool(b) => if b then "True" else "False"
    case Proto(p) => ShowPrototype(p)
  }

  /** The fields of a `Function`; `None` is a field never assigned. */
  datatype Descriptor = Descriptor(proto: Value, body: Option<Value>, types: Option<seq<TypeId>>, pure: bool, inline: bool)

  const AllowedAttrs: set<string> := {"proto", "body", "types", "pure", "inline"}

  /** `Function.__init__`: the prototype is parsed, both flags start true. */
  function NewDescriptor(proto: string): (r: Result<Descriptor, DslError>)
    ensures r.Success? <==> ParsePrototype(proto).Success?
    ensures r.Success? ==> r.value == Descriptor(Proto(ParsePrototype(proto).value), None, None, true, true)
    ensures r.Failure? ==> r.error == Parse(ParsePrototype(proto).error)
  {
    match ParsePrototype(proto)
    case Success(p) => Success(Descriptor(Proto(p), None, None, true, true))
    case Failure(e) => Failure(Parse(e))
  }

  /** `[parse_type_id(ty) for ty in items]`: parsed in order, the first failure raises. */
  function ParseTypes(items: seq<string>): (r: Result<seq<TypeId>, ParseException>)
    ensures r.Success? ==> |r.value| == |items| && forall i :: 0 <= i < |items| ==> ParseTypeIdStream(items[i]) == Success(r.value[i])
    ensures r.Failure? ==> exists i :: 0 <= i < |items| && ParseTypeIdStream(items[i]) == Failure(r.error)
  {
    if |items| == 0 then Success([])
    else match ParseTypeIdStream(items[0])
      case Failure(e) => Failure(e)
      case Success(t) =>
        var more := ParseTypes(items[1..]);
        if more.Failure? then
          ghost var i :| 0 <= i < |items[1..]| && ParseTypeIdStream(items[1..][i]) == Failure(more.error);
          assert items[1..][i] == items[i + 1];
          Failure(more.error)
        else
          ConsIndex(t, more.value);
          Success([t] + more.value)
  }

  /** The error raised is that of the first string that does not parse:
      every string before it parses. */
  lemma {:induction false} ParseTypesFirstFailure(items: seq<string>)
    ensures ParseTypes(items).Failure? ==>
      exists i :: 0 <= i < |items| && ParseTypeIdStream(items[i]) == Failure(ParseTypes(items).error)
        && forall j :: 0 <= j < i ==> ParseTypeIdStream(items[j]).Success?
    decreases |items|
  {
    if |items| > 0 && ParseTypeIdStream(items[0]).Success? && ParseTypes(items).Failure? {
      var rest := items[1..];
      assert ParseTypes(items) == ParseTypes(rest);
      ParseTypesFirstFailure(rest);
      var i :| 0 <= i < |rest| && ParseTypeIdStream(rest[i]) == Failure(ParseTypes(rest).error)
        && forall j :: 0 <= j < i ==> ParseTypeIdStream(rest[j]).Success?;
      forall j | 0 <= j < i + 1
        ensures ParseTypeIdStream(items[j]).Success?
      {
        if j > 0 {
          assert items[j] == rest[j - 1];
        }
      }
      assert items[i + 1] == rest[i];
    }
  }

  lemma ParseTypesAllOrNothing(items: seq<string>)
    ensures ParseTypes(items).Success? <==> forall i :: 0 <= i < |items| ==> ParseTypeIdStream(items[i]).Success?
  {
  }

  /** What an assignment does: the updated descriptor, a caught
      `DSLException`, or a Python error that escapes. */
  datatype Assigned = Assigned(d: Descriptor) | Caught(e: DslError) | Escaped(x: Escape)

  /** `Function.__setattr__`. Iterating a string yields its characters, so
      a non-empty string assigned to `types` fails on its first character. */
  function SetAttr(d: Descriptor, attr: string, v: Value): (r: Assigned)
    ensures r.Caught? && r.e.UnknownProperty? <==> attr !in AllowedAttrs
    ensures r.Caught? && r.e.UnknownProperty? ==> r.e.attr == attr
    ensures r.Assigned? ==> attr in AllowedAttrs
    ensures r.Assigned? ==>
      && (attr != "proto" ==> r.d.proto == d.proto)
      && (attr != "body" ==> r.d.body == d.body)
      && (attr != "types" ==> r.d.types == d.types)
      && (attr != "pure" ==> r.d.pure == d.pure)
      && (attr != "inline" ==> r.d.inline == d.inline)
    ensures r.Escaped? <==> attr == "types" && (v.Bool? || v.Proto?)
    ensures attr == "types" && v.StrList? ==>
      (r.Assigned? <==> forall i :: 0 <= i < |v.items| ==> ParseTypeIdStream(v.items[i]).Success?)
    ensures attr == "types" && v.StrList? && r.Assigned? ==>
      && r.d.types.Some?
      && |r.d.types.value| == |v.items|
      && forall i :: 0 <= i < |v.items| ==> ParseTypeIdStream(v.items[i]) == Success(r.d.types.value[i])
    ensures (attr == "pure" || attr == "inline") ==> r.Assigned? && (if attr == "pure" then r.d.pure else r.d.inline) == Truthy(v)
  {
    if attr == "proto" then Assigned(d.(proto := v))
    else if attr == "body" then Assigned(d.(body := Some(v)))
    else if attr == "types" then
      match v
      case Str(s) => SetTypes(d, seq(|s|, i requires 0 <= i < |s| => [s[i]]))
      case StrList(items) => SetTypes(d, items)
      case Bool(_) => Escaped(TypeError)
      case Proto(_) => Escaped(TypeError)
    else if attr == "pure" then Assigned(d.(pure := Truthy(v)))
    else if attr == "inline" then Assigned(d.(inline := Truthy(v)))
    else Caught(UnknownProperty(attr))
  }

  function SetTypes(d: Descriptor, items: seq<string>): (r: Assigned)
    ensures r.Assigned? || r.Caught?
    ensures r.Caught? ==> r.e.Parse?
    ensures r.Assigned? <==> ParseTypes(items).Success?
    ensures r.Assigned? ==> ParseTypes(items).Success? && r.d == d.(types := Some(ParseTypes(items).value))
  {
    match ParseTypes(items)
    case Success(ts) => Assigned(d.(types := Some(ts)))
    case Failure(e) => Caught(Parse(e))
  }

  /** A non-empty string assigned to `types` fails on its first character,
      which is never a type identifier on its own. */
  lemma TypesFromStringFail(d: Descriptor, s: string)
    requires |s| > 0
    ensures SetAttr(d, "types", Str(s)) == Caught(Parse(ParseException("type_id", 1, [s[0]])))
  {
    var c := [s[0]];
    assert !StartsWith(SkipSpaces(c), GentypeName) && !StartsWith(SkipSpaces(c), FloatName);
  }

  lemma {:induction false} ParseTypesOf(items: seq<string>, expected: seq<TypeId>)
    requires |items| == |expected|
    requires forall i :: 0 <= i < |items| ==> ParseTypeIdStream(items[i]) == Success(expected[i])
    ensures ParseTypes(items) == Success(expected)
    decreases |items|
  {
    if |items| > 0 {
      var rest, more := items[1..], expected[1..];
      forall i | 0 <= i < |rest|
        ensures ParseTypeIdStream(rest[i]) == Success(more[i])
      {
        assert rest[i] == items[i + 1] && more[i] == expected[i + 1];
      }
      ParseTypesOf(rest, more);
      assert ParseTypeIdStream(items[0]) == Success(expected[0]);
      assert [expected[0]] + more == expected;
    }
  }

  lemma FloatParses()
    ensures ParseTypeIdStream(FloatName) == Success(TypeId(FloatName, 0))
  {
    ParseTypeIdOf("", TypeId(FloatName, 0), "");
    assert "" + TypeId(FloatName, 0).Show() + "" == FloatName;
    SpaceRunOver("", "");
  }

  /** The float types of the catalogue, the scalar then its vectors. */
  const FloatTypes: seq<TypeId> := [TypeId(FloatName, 0), TypeId(FloatName, 2), TypeId(FloatName, 3),
                                    TypeId(FloatName, 4), TypeId(FloatName, 8), TypeId(FloatName, 16)]

  /** The catalogue's usual type list, the scalar followed by its vectors,
      is accepted and parsed in order. */
  lemma FloatAndVectorsAccepted(d: Descriptor)
    ensures var r := SetAttr(d, "types", StrList([FloatName] + Vectors(FloatName)));
      r.Assigned? && r.d.types == Some(FloatTypes)
  {
    var items := [FloatName] + Vectors(FloatName);
    SetTypesList(d, items);
    FloatListParses(items);
  }

  /** Assigning a list to `types` parses the list. */
  lemma SetTypesList(d: Descriptor, items: seq<string>)
    ensures SetAttr(d, "types", StrList(items)) == SetTypes(d, items)
  {
  }

  lemma FloatListParses(items: seq<string>)
    requires items == [FloatName] + Vectors(FloatName)
    ensures ParseTypes(items) == Success(FloatTypes)
  {
    FloatListEntries(items);
    ParseTypesOf(items, FloatTypes);
  }

  lemma FloatListEntries(items: seq<string>)
    requires items == [FloatName] + Vectors(FloatName)
    ensures |items| == |FloatTypes|
    ensures forall i :: 0 <= i < |items| ==> ParseTypeIdStream(items[i]) == Success(FloatTypes[i])
  {
    ConsIndex(FloatName, Vectors(FloatName));
    FloatParses();
    FloatTypesAreWidths();
    forall i | 1 <= i < |items|
      ensures ParseTypeIdStream(items[i]) == Success(FloatTypes[i])
    {
      VectorsParse(FloatName, i - 1);
    }
  }

  lemma FloatTypesAreWidths()
    ensures FloatTypes[0] == TypeId(FloatName, 0)
    ensures forall k :: 0 <= k < |VectorWidths| ==> FloatTypes[k + 1] == TypeId(FloatName, VectorWidths[k])
  {
  }
}
