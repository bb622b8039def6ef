/** The generator's exceptions: those its per-definition scope catches and
    prints (`DSLException` and its subclass `ParseException`) and those that
    escape it and end the script. */
module GenErrors {
  import opened Results
  import opened Text
  import opened GenTypes
  import opened GenParser
  import opened GenRoundTrip

  /** A `DSLException`. */
  datatype DslError = Parse(e: ParseException) | UnknownProperty(attr: string)

  /** A Python exception that is not a `DSLException`. */
  datatype Escape =
    | KeyError(key: string)       // a template placeholder other than `cty`
    | ValueError                  // a malformed template placeholder
    | AttributeError(attr: string) // `types` or `body` never assigned, or `proto` not a prototype
    | TypeError                   // a value of the wrong kind
    | RuntimeError                // the scope's generator did not yield

  function ParseHeader(e: ParseException): string {
    "cannot parse " + e.token + ": "
  }

  /** Python's `s[:-k]`: everything but the last k characters; empty when k is 0. */
  function PyDropLast(s: string, k: nat): string {
    if k == 0 || k >= |s| then "" else s[..|s| - k]
  }

  /** Python's `s[-k:]`: the last k characters; all of s when k is 0. */
  function PyTakeLast(s: string, k: nat): string {
    if k == 0 || k >= |s| then s else s[|s| - k..]
  }

  /** `ParseException.__str__` as written: the stream split by slicing with `-to_end`. */
  function ParseMessageAsWritten(e: ParseException): string {
    ParseHeader(e) + PyDropLast(e.stream, e.toEnd) + "@" + PyTakeLast(e.stream, e.toEnd)
  }

  /** `ParseException.__str__` as intended: '@' marks where parsing stopped,
      `to_end` characters before the end of the stream. */
  function ParseMessage(e: ParseException): string {
    var cut := if e.toEnd <= |e.stream| then |e.stream| - e.toEnd else 0;
    ParseHeader(e) + e.stream[..cut] + "@" + e.stream[cut..]
  }

  /** The text `print ex` writes for a caught error: `__str__` as written.
      A parse error prints as the header followed by the whole stream with
      one '@' inserted; the '@' sits where the intended message puts it
      whenever the parse stopped inside the stream. */
  function Message(d: DslError): (r: string)
    ensures d.Parse? ==> exists cut ::
              0 <= cut <= |d.e.stream| && r == ParseHeader(d.e) + d.e.stream[..cut] + "@" + d.e.stream[cut..]
    ensures d.Parse? && 0 < d.e.toEnd <= |d.e.stream| ==> r == ParseMessage(d.e)
    ensures d.UnknownProperty? ==> r == "Unknown property: " + d.attr
  {
    match d
    case Parse(e) =>
      var k := if 0 < e.toEnd < |e.stream| then |e.stream| - e.toEnd else 0;
      assert ParseMessageAsWritten(e) == ParseHeader(e) + e.stream[..k] + "@" + e.stream[k..];
      ParseMessageAsWritten(e)
    case UnknownProperty(attr) => "Unknown property: " + attr
  }

  /** The intended message is the whole stream with one '@' inserted exactly
      `to_end` characters before its end. */
  lemma ParseMessageMarksFailurePoint(e: ParseException)
    requires e.toEnd <= |e.stream|
    ensures var m := ParseMessage(e);
      var at := |ParseHeader(e)| + |e.stream| - e.toEnd;
      && at < |m| && m[at] == '@'
      && m[..at] + m[at + 1..] == ParseHeader(e) + e.stream
      && |m| - (at + 1) == e.toEnd
  {
    var m := ParseMessage(e);
    var cut := |e.stream| - e.toEnd;
    var at := |ParseHeader(e)| + cut;
    assert m == (ParseHeader(e) + e.stream[..cut]) + "@" + e.stream[cut..];
    assert m[..at] == ParseHeader(e) + e.stream[..cut];
    assert m[at + 1..] == e.stream[cut..];
    assert e.stream[..cut] + e.stream[cut..] == e.stream;
  }

  /** Whenever something was left unconsumed (`to_end` > 0), the message
      as written and as intended agree. */
  lemma ParseMessageAgreesWhenSomethingLeft(e: ParseException)
    requires 0 < e.toEnd <= |e.stream|
    ensures ParseMessageAsWritten(e) == ParseMessage(e)
  {
  }

  /** With nothing left to parse (`to_end` = 0) the message as written puts
      the '@' in front of the whole stream instead of after it. */
  lemma ParseMessageAsWrittenAtEnd(e: ParseException)
    requires e.toEnd == 0
    ensures ParseMessageAsWritten(e) == ParseHeader(e) + "@" + e.stream
    ensures ParseMessage(e) == ParseHeader(e) + e.stream + "@"
  {
    assert e.stream[..|e.stream|] == e.stream;
  }

  /** "gentype f(" stops inside the argument list with nothing left, and
      the message as written reports the failure at the start of the text. */
  lemma ParseMessageAsWrittenMisplacesMarker()
    ensures var e := ParseException("type_id", 0, "gentype f(");
      && ParseMessageAsWritten(e) == ParseHeader(e) + "@gentype f("
      && ParseMessage(e) == ParseHeader(e) + "gentype f(@"
      && ParseMessageAsWritten(e) != ParseMessage(e)
  {
    var e := ParseException("type_id", 0, "gentype f(");
    ParseMessageAsWrittenAtEnd(e);
    var h := |ParseHeader(e)|;
    assert ParseMessageAsWritten(e)[h] == '@';
    assert ParseMessage(e)[h] == 'g';
  }

  lemma UnclosedArgumentListStopsAtEnd()
    ensures ParsePrototype("gentype f(") == Failure(ParseException("type_id", 0, "gentype f("))
  {
    var t := TypeId(GentypeName, 0);
    assert "gentype f(" == "" + t.Show() + " f(";
    ParseTypeIdOf("", t, " f(");
    assert " f(" == " " + "f" + "(";
    ParseIdentifierOf(" ", "f", "(");
    SymbolOf("lpar", '(', "");
    assert ['('] + "" == "(";
    assert ParseArgList("") == Failure(Stuck("type_id", 0));
    PrototypeStopsInArgs("gentype f(", t, " f(", "f", "(", "", Stuck("type_id", 0));
  }

  /** The steps of `Parser.parse_prototype` up to a failing argument list. */
  lemma PrototypeStopsInArgs(x: string, t: TypeId, r1: string, name: string, r2: string, r3: string, e: Stuck)
    requires ParseTypeId(x) == Success((t, r1))
    requires ParseIdentifier(r1) == Success((name, r2))
    requires ParseSymbol("lpar", '(', r2) == Success(r3)
    requires ParseArgList(r3) == Failure(e)
    ensures ParsePrototype(x) == Failure(ParseException(e.token, e.toEnd, x))
  {
  }
}
