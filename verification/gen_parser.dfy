/** The recursive-descent prototype parser of the generic-library generator.
    Each sub-parser takes the unconsumed rest of the stream and either returns
    what it recognised together with the new rest, or reports the token it
    expected and how many characters were still unconsumed. */
module GenParser {
  import opened Results
  import opened Text
  import opened GenTypes

  /** A sub-parser's failure: the expected token and the unconsumed length. */
  datatype Stuck = Stuck(token: string, toEnd: nat)

  /** `ParseException`: the expected token, the unconsumed length and the whole stream. */
  datatype ParseException = ParseException(token: string, toEnd: nat, stream: string)

  predicate AllSpaces(s: string) {
    forall i :: 0 <= i < |s| ==> IsSpace(s[i])
  }

  /** Length of the longest prefix that `\s*` matches. */
  function SpaceRun(s: string): (n: nat)
    ensures n <= |s| && AllSpaces(s[..n])
    ensures n < |s| ==> !IsSpace(s[n])
  {
    if |s| > 0 && IsSpace(s[0]) then
      assert s[..1 + SpaceRun(s[1..])] == [s[0]] + s[1..][..SpaceRun(s[1..])];
      1 + SpaceRun(s[1..])
    else 0
  }

  /** Length of the longest prefix that `\w*` matches. */
  function WordRun(s: string): (n: nat)
    ensures n <= |s| && forall i :: 0 <= i < n ==> IsWordChar(s[i])
    ensures n < |s| ==> !IsWordChar(s[n])
  {
    if |s| > 0 && IsWordChar(s[0]) then 1 + WordRun(s[1..]) else 0
  }

  function SkipSpaces(s: string): (r: string)
    ensures |r| <= |s|
  {
    s[SpaceRun(s)..]
  }

  /** The optional vector width right after a type name: the alternatives
      `2`, `3`, `4`, `8`, `16` tried in that order, without skipping spaces. */
  function ScanWidth(s: string): (r: (nat, string))
    ensures r.0 == 0 || r.0 in VectorWidths
    ensures r.0 == 0 ==> r.1 == s && forall k :: 0 <= k < |VectorWidths| ==> !StartsWith(s, ShowNat(VectorWidths[k]))
    ensures r.0 != 0 ==> s == ShowNat(r.0) + r.1
  {
    if StartsWith(s, "2") then (2, s[1..])
    else if StartsWith(s, "3") then (3, s[1..])
    else if StartsWith(s, "4") then (4, s[1..])
    else if StartsWith(s, "8") then (8, s[1..])
    else if StartsWith(s, "16") then (16, s[2..])
    else (0, s)
  }

  /** `Parser.parse_type_id`: `gentype` or `float` after optional spaces,
      immediately followed by an optional width. */
  function ParseTypeId(rest: string): (r: Result<(TypeId, string), Stuck>)
    ensures r.Failure? <==> !StartsWith(SkipSpaces(rest), GentypeName) && !StartsWith(SkipSpaces(rest), FloatName)
    ensures r.Failure? ==> r.error == Stuck("type_id", |rest|)
    ensures r.Success? ==> ValidTypeId(r.value.0) && |r.value.1| < |rest|
    ensures r.Success? ==> SkipSpaces(rest) == r.value.0.Show() + r.value.1
  {
    var s := SkipSpaces(rest);
    if StartsWith(s, GentypeName) then
      var w := ScanWidth(s[|GentypeName|..]);
      assert s == GentypeName + s[|GentypeName|..];
      Success((TypeId(GentypeName, w.0), w.1))
    else if StartsWith(s, FloatName) then
      var w := ScanWidth(s[|FloatName|..]);
      assert s == FloatName + s[|FloatName|..];
      Success((TypeId(FloatName, w.0), w.1))
    else
      Failure(Stuck("type_id", |rest|))
  }

  /** `Parser.parse_identifier`: `[^\W\d]\w*` after optional spaces. */
  function ParseIdentifier(rest: string): (r: Result<(string, string), Stuck>)
    ensures r.Failure? <==> |SkipSpaces(rest)| == 0 || !IsIdentStart(SkipSpaces(rest)[0])
    ensures r.Failure? ==> r.error == Stuck("identifier", |rest|)
    ensures r.Success? ==> IsIdentifier(r.value.0) && SkipSpaces(rest) == r.value.0 + r.value.1
    ensures r.Success? ==> |r.value.1| == 0 || !IsWordChar(r.value.1[0])
    ensures r.Success? ==> |r.value.1| < |rest|
  {
    var s := SkipSpaces(rest);
    if |s| > 0 && IsIdentStart(s[0]) then
      var n := 1 + WordRun(s[1..]);
      assert s == s[..n] + s[n..];
      Success((s[..n], s[n..]))
    else
      Failure(Stuck("identifier", |rest|))
  }

  /** `Parser.parse_lpar` and `Parser.parse_rpar`: one fixed character after optional spaces. */
  function ParseSymbol(token: string, c: char, rest: string): (r: Result<string, Stuck>)
    ensures r.Failure? <==> |SkipSpaces(rest)| == 0 || SkipSpaces(rest)[0] != c
    ensures r.Failure? ==> r.error == Stuck(token, |rest|)
    ensures r.Success? ==> SkipSpaces(rest) == [c] + r.value && |r.value| < |rest|
  {
    var s := SkipSpaces(rest);
    if |s| > 0 && s[0] == c then Success(s[1..]) else Failure(Stuck(token, |rest|))
  }

  /** `Parser.parse_arg`: a type identifier followed by an identifier. */
  function ParseArg(rest: string): (r: Result<(Arg, string), Stuck>)
    ensures r.Success? ==> ValidArg(r.value.0)
    ensures r.Success? ==> |r.value.1| < |rest|
    ensures r.Failure? ==> r.error.toEnd <= |rest|
  {
    var t :- ParseTypeId(rest);
    var id :- ParseIdentifier(t.1);
    Success((Arg(t.0, id.0), id.1))
  }

  /** `Parser.parse_arg_list`: one or more arguments separated by commas.
      The spaces before a missing comma are left unconsumed. */
  function ParseArgList(rest: string): (r: Result<(seq<Arg>, string), Stuck>)
    ensures r.Success? ==> |r.value.0| > 0 && |r.value.1| <= |rest|
    ensures r.Success? ==> forall a :: a in r.value.0 ==> ValidArg(a)
    ensures r.Failure? ==> r.error.toEnd <= |rest|
    decreases |rest|
  {
    match ParseArg(rest)
    case Failure(e) => Failure(e)
    case Success(a) =>
      var after := SkipSpaces(a.1);
      if |after| > 0 && after[0] == ',' then
        match ParseArgList(after[1..])
        case Failure(e) => Failure(e)
        case Success(more) =>
          var args := [a.0] + more.0;
          Success((args, more.1))
      else
        Success(([a.0], a.1))
  }

  /** `Parser.parse_prototype`, leaving whatever follows the closing parenthesis. */
  function ParsePrototypeRest(rest: string): (r: Result<(Prototype, string), Stuck>)
    ensures r.Success? ==> WellFormed(r.value.0) && |r.value.1| <= |rest|
    ensures r.Failure? ==> r.error.toEnd <= |rest|
  {
    var ret :- ParseTypeId(rest);
    var name :- ParseIdentifier(ret.1);
    var afterLpar :- ParseSymbol("lpar", '(', name.1);
    var args :- ParseArgList(afterLpar);
    var afterRpar :- ParseSymbol("rpar", ')', args.1);
    Success((Prototype(ret.0, name.0, args.0), afterRpar))
  }

  /** The module-level `parse_prototype`: a prototype and nothing but spaces after it. */
  function ParsePrototype(stream: string): (r: Result<Prototype, ParseException>)
    ensures r.Success? ==> WellFormed(r.value)
    ensures r.Failure? ==> r.error.stream == stream && r.error.toEnd <= |stream|
  {
    match ParsePrototypeRest(stream)
    case Failure(e) => Failure(ParseException(e.token, e.toEnd, stream))
    case Success(pr) =>
      if SpaceRun(pr.1) == |pr.1| then Success(pr.0)
      else Failure(ParseException("end", |pr.1|, stream))
  }

  /** The module-level `parse_type_id`: a type identifier surrounded only by spaces. */
  function ParseTypeIdStream(stream: string): (r: Result<TypeId, ParseException>)
    ensures r.Success? ==> ValidTypeId(r.value)
    ensures r.Success? ==> Surrounded(stream, r.value.Show())
    ensures r.Failure? ==> r.error.stream == stream && r.error.toEnd <= |stream|
  {
    match ParseTypeId(stream)
    case Failure(e) => Failure(ParseException(e.token, e.toEnd, stream))
    case Success(tr) =>
      if SpaceRun(tr.1) == |tr.1| then
        SpaceRunAll(tr.1);
        TrailingSpaces(stream, SpaceRun(stream), tr.0.Show(), tr.1);
        Success(tr.0)
      else Failure(ParseException("end", |tr.1|, stream))
  }

  /** `shown` with only spaces before and after it. */
  predicate Surrounded(stream: string, shown: string) {
    var k := SpaceRun(stream);
    k + |shown| <= |stream| && stream[k..k + |shown|] == shown && AllSpaces(stream[k + |shown|..])
  }

  /** A stream whose text after its leading spaces is `shown` followed by
      spaces only. */
  lemma TrailingSpaces(stream: string, k: nat, shown: string, tail: string)
    requires k == SpaceRun(stream) && stream[k..] == shown + tail && AllSpaces(tail)
    ensures Surrounded(stream, shown)
  {
    var after := stream[k..];
    assert after[..|shown|] == shown && after[|shown|..] == tail;
    assert after[..|shown|] == stream[k..k + |shown|];
    assert after[|shown|..] == stream[k + |shown|..];
  }

  /** A text that is one run of spaces is all spaces. */
  lemma SpaceRunAll(tail: string)
    requires SpaceRun(tail) == |tail|
    ensures AllSpaces(tail)
  {
    assert tail[..SpaceRun(tail)] == tail;
  }
}
