/** The part of Python's `string.Template.substitute` the generator relies
    on: bodies are templates, substituted with the single key `cty`.
    `$$` stands for `$`; `$name` takes the longest run of identifier
    characters; `${name}` is the braced form; any other `$` is invalid.
    Placeholders are replaced left to right and the first bad one raises. */
module GenTemplate {
  import opened Results
  import opened Text
  import opened GenTypes
  import opened GenParser
  import opened GenErrors
  import opened GenRoundTrip

  const CtyKey: string := "cty"

  /** `Template(t).substitute(cty = value)`. */
  function Substitute(t: string, value: string): (r: Result<string, Escape>)
    ensures r.Failure? ==> r.error.KeyError? || r.error.ValueError?
    decreases |t|
  {
    if |t| == 0 then Success("")
    else if t[0] != '$' then
      var rest :- Substitute(t[1..], value);
      Success([t[0]] + rest)
    else
      var u := t[1..];
      if |u| > 0 && u[0] == '$' then
        var rest :- Substitute(u[1..], value);
        Success("$" + rest)
      else if |u| > 0 && IsIdentStart(u[0]) then
        var n := 1 + WordRun(u[1..]);
        if u[..n] == CtyKey then
          var rest :- Substitute(u[n..], value);
          Success(value + rest)
        else Failure(KeyError(u[..n]))
      else if |u| > 1 && u[0] == '{' && IsIdentStart(u[1]) && 2 + WordRun(u[2..]) < |u| && u[2 + WordRun(u[2..])] == '}' then
        var n := 1 + WordRun(u[2..]);
        if u[1..1 + n] == CtyKey then
          var rest :- Substitute(u[2 + n..], value);
          Success(value + rest)
        else Failure(KeyError(u[1..1 + n]))
      else Failure(ValueError)
  }

  /** A template without any `$` is returned unchanged. */
  lemma {:induction false} NoPlaceholderUnchanged(t: string, value: string)
    requires forall i :: 0 <= i < |t| ==> t[i] != '$'
    ensures Substitute(t, value) == Success(t)
    decreases |t|
  {
    if |t| > 0 {
      NoPlaceholderUnchanged(t[1..], value);
      assert [t[0]] + t[1..] == t;
    }
  }

  /** The pieces a well-formed body is made of. */
  datatype Piece = Text(s: string) | Dollar | Cty | BracedCty

  function Compose(ps: seq<Piece>): string {
    if |ps| == 0 then ""
    else
      var head := match ps[0]
        case Text(s) => s
        case Dollar => "$$"
        case Cty => "$cty"
        case BracedCty => "${cty}";
      head + Compose(ps[1..])
  }

  /** The intended text: every placeholder replaced by the value, `$$` by `$`. */
  function Expand(ps: seq<Piece>, value: string): string {
    if |ps| == 0 then ""
    else
      var head := match ps[0]
        case Text(s) => s
        case Dollar => "$"
        case Cty => value
        case BracedCty => value;
      head + Expand(ps[1..], value)
  }

  /** Text pieces are non-empty and free of `$`, and no text glued to an
      unbraced `$cty` starts with an identifier character. */
  predicate WellFormedPieces(ps: seq<Piece>) {
    forall i :: 0 <= i < |ps| ==>
      && (ps[i].Text? ==> |ps[i].s| > 0 && forall k :: 0 <= k < |ps[i].s| ==> ps[i].s[k] != '$')
      && (ps[i].Cty? && i + 1 < |ps| && ps[i + 1].Text? && |ps[i + 1].s| > 0 ==> !IsWordChar(ps[i + 1].s[0]))
  }

  /** First character of a composed template, if any. */
  lemma ComposeStart(ps: seq<Piece>)
    requires WellFormedPieces(ps) && |ps| > 0
    ensures |Compose(ps)| > 0
    ensures ps[0].Text? ==> Compose(ps)[0] == ps[0].s[0]
    ensures !ps[0].Text? ==> Compose(ps)[0] == '$'
  {
  }

  /** Substituting a well-formed template replaces exactly its placeholders. */
  lemma {:induction false} SubstituteComposed(ps: seq<Piece>, value: string)
    requires WellFormedPieces(ps)
    ensures Substitute(Compose(ps), value) == Success(Expand(ps, value))
    decreases |ps|
  {
    if |ps| > 0 {
      var rest := ps[1..];
      assert WellFormedPieces(rest) by {
        forall i | 0 <= i < |rest|
          ensures (rest[i].Text? ==> |rest[i].s| > 0 && forall k :: 0 <= k < |rest[i].s| ==> rest[i].s[k] != '$')
          ensures (rest[i].Cty? && i + 1 < |rest| && rest[i + 1].Text? && |rest[i + 1].s| > 0 ==> !IsWordChar(rest[i + 1].s[0]))
        {
          assert rest[i] == ps[i + 1];
        }
      }
      SubstituteComposed(rest, value);
      var tail := Compose(rest);
      match ps[0]
      case Text(s) =>
        TextThenTemplate(s, tail, value);
      case Dollar =>
        assert Compose(ps) == "$$" + tail;
        assert ("$$" + tail)[2..] == tail;
      case Cty =>
        assert Compose(ps) == "$cty" + tail;
        if |rest| > 0 {
          ComposeStart(rest);
        }
        CtyThenTemplate(tail, value);
      case BracedCty =>
        assert Compose(ps) == "${cty}" + tail;
        BracedCtyThenTemplate(tail, value);
    }
  }

  lemma {:induction false} TextThenTemplate(s: string, tail: string, value: string)
    requires forall k :: 0 <= k < |s| ==> s[k] != '$'
    requires Substitute(tail, value).Success?
    ensures Substitute(s + tail, value) == Success(s + Substitute(tail, value).value)
    decreases |s|
  {
    if |s| == 0 {
      assert s + tail == tail;
      assert s + Substitute(tail, value).value == Substitute(tail, value).value;
    } else {
      assert (s + tail)[1..] == s[1..] + tail;
      TextThenTemplate(s[1..], tail, value);
      assert [s[0]] + (s[1..] + Substitute(tail, value).value) == s + Substitute(tail, value).value;
    }
  }

  lemma CtyThenTemplate(tail: string, value: string)
    requires |tail| == 0 || !IsWordChar(tail[0])
    requires Substitute(tail, value).Success?
    ensures Substitute("$cty" + tail, value) == Success(value + Substitute(tail, value).value)
  {
    var u := ("$cty" + tail)[1..];
    assert u == "cty" + tail;
    assert u[1..] == "ty" + tail;
    WordRunOver("ty", tail);
    assert u[..3] == CtyKey;
    assert u[3..] == tail;
  }

  lemma BracedCtyThenTemplate(tail: string, value: string)
    requires Substitute(tail, value).Success?
    ensures Substitute("${cty}" + tail, value) == Success(value + Substitute(tail, value).value)
  {
    BracedCtyShape("${cty}" + tail, tail);
  }

  /** Where the pieces of `${cty}` sit in a template that starts with it. */
  lemma BracedCtyShape(t: string, tail: string)
    requires t == "${cty}" + tail
    ensures |t| > 5 && t[0] == '$' && t[1..][0] == '{' && IsIdentStart(t[1..][1])
    ensures WordRun(t[1..][2..]) == 2 && t[1..][4] == '}'
    ensures t[1..][1..4] == CtyKey && t[1..][5..] == tail
  {
    var u := t[1..];
    assert u == "{cty}" + tail;
    assert u[2..] == "ty" + ("}" + tail);
    WordRunOver("ty", "}" + tail);
    assert u[1..4] == CtyKey;
    assert u[5..] == tail;
  }

  /** A placeholder naming anything but `cty` raises `KeyError` with that name,
      whatever follows it. */
  lemma UnknownPlaceholderRaises(before: string, name: string, after: string, value: string)
    requires forall k :: 0 <= k < |before| ==> before[k] != '$'
    requires IsIdentifier(name) && name != CtyKey
    requires |after| == 0 || !IsWordChar(after[0])
    ensures Substitute(before + "$" + name + after, value) == Failure(KeyError(name))
  {
    var t := "$" + name + after;
    UnknownFails(t, name, after, value);
    UnknownAfterText(before, t, value);
    assert before + "$" + name + after == before + t;
  }

  lemma UnknownFails(t: string, name: string, after: string, value: string)
    requires t == "$" + name + after
    requires IsIdentifier(name) && name != CtyKey
    requires |after| == 0 || !IsWordChar(after[0])
    ensures Substitute(t, value) == Failure(KeyError(name))
  {
    UnknownShape(t, name, after);
  }

  /** Where the name sits in a template that starts with `$name`. */
  lemma UnknownShape(t: string, name: string, after: string)
    requires t == "$" + name + after
    requires IsIdentifier(name) && (|after| == 0 || !IsWordChar(after[0]))
    ensures |t| > 1 && t[0] == '$' && t[1..][0] == name[0] && IsIdentStart(t[1..][0])
    ensures 1 + WordRun(t[1..][1..]) == |name| && t[1..][..|name|] == name
  {
    var u := t[1..];
    assert u == name + after;
    assert u[1..] == name[1..] + after;
    WordRunOver(name[1..], after);
    assert u[..|name|] == name;
  }

  /** A failure after a `$`-free prefix is the failure of the whole template. */
  lemma {:induction false} UnknownAfterText(before: string, rest: string, value: string)
    requires forall k :: 0 <= k < |before| ==> before[k] != '$'
    ensures Substitute(rest, value).Failure? ==> Substitute(before + rest, value) == Substitute(rest, value)
    decreases |before|
  {
    if |before| > 0 {
      assert (before + rest)[1..] == before[1..] + rest;
      UnknownAfterText(before[1..], rest, value);
    } else {
      assert before + rest == rest;
    }
  }

  /** The body of `acos` in the math catalogue, instantiated for `float`. */
  lemma AcosBodyForFloat()
    ensures Substitute("return __builtin_acos$cty(x);", "f") == Success("return __builtin_acosf(x);")
  {
    var ps := AcosPieces;
    AcosComposes(ps);
    AcosExpands(ps);
    SubstituteComposed(ps, "f");
  }

  const AcosPieces: seq<Piece> := [Text("return __builtin_acos"), Cty, Text("(x);")]

  lemma AcosComposes(ps: seq<Piece>)
    requires ps == AcosPieces
    ensures WellFormedPieces(ps) && Compose(ps) == "return __builtin_acos$cty(x);"
  {
    AcosWellFormed(ps);
    assert Compose(ps[2..]) == "(x);";
    assert Compose(ps[1..]) == "$cty(x);";
  }

  lemma AcosExpands(ps: seq<Piece>)
    requires ps == AcosPieces
    ensures Expand(ps, "f") == "return __builtin_acosf(x);"
  {
    assert Expand(ps[2..], "f") == "(x);";
    assert Expand(ps[1..], "f") == "f(x);";
  }

  lemma AcosWellFormed(ps: seq<Piece>)
    requires ps == AcosPieces
    ensures WellFormedPieces(ps)
  {
    NoDollar(ps[0].s);
    NoDollar(ps[2].s);
    assert !IsWordChar('(');
  }

  /** A text without the character `$` has it at no position. */
  lemma NoDollar(s: string)
    requires '$' !in s
    ensures forall k :: 0 <= k < |s| ==> s[k] != '$'
  {
  }
}
