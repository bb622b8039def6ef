/** The printers of the generator's pseudo-AST and its parser are inverse:
    whatever the parser can produce prints to a text the parser reads back
    to the very same value. */
module GenRoundTrip {
  import opened Results
  import opened Text
  import opened GenTypes
  import opened GenParser

  lemma {:induction false} SpaceRunOver(sp: string, x: string)
    requires AllSpaces(sp)
    requires |x| == 0 || !IsSpace(x[0])
    ensures SpaceRun(sp + x) == |sp|
    ensures SkipSpaces(sp + x) == x
    decreases |sp|
  {
    if |sp| == 0 {
      assert sp + x == x;
    } else {
      assert (sp + x)[1..] == sp[1..] + x;
      SpaceRunOver(sp[1..], x);
    }
  }

  lemma {:induction false} WordRunOver(w: string, x: string)
    requires forall i :: 0 <= i < |w| ==> IsWordChar(w[i])
    requires |x| == 0 || !IsWordChar(x[0])
    ensures WordRun(w + x) == |w|
    decreases |w|
  {
    if |w| == 0 {
      assert w + x == x;
    } else {
      assert (w + x)[1..] == w[1..] + x;
      WordRunOver(w[1..], x);
    }
  }

  lemma ScanWidthOf(t: TypeId, tail: string)
    requires ValidTypeId(t)
    requires |tail| == 0 || !IsDigit(tail[0])
    ensures ScanWidth((if t.width != 0 then ShowNat(t.width) else "") + tail) == (t.width, tail)
  {
    var s := (if t.width != 0 then ShowNat(t.width) else "") + tail;
    if t.width == 0 {
      assert s == tail;
      if |tail| > 0 {
        assert !IsDigit(tail[0]);
      }
    } else if t.width == 16 {
      assert ShowNat(16) == "16";
      assert s[..2] == "16" && s[2..] == tail;
    } else {
      assert ShowNat(t.width) == [DigitChar(t.width)];
      assert s[..1] == ShowNat(t.width) && s[1..] == tail;
    }
  }

  /** A printed type identifier starts with its name, followed by its width. */
  lemma ShowSplits(t: TypeId, tail: string)
    ensures var s := t.Show() + tail;
      && |t.name| <= |s| && s[..|t.name|] == t.name
      && s[|t.name|..] == (if t.width != 0 then ShowNat(t.width) else "") + tail
  {
    var ext := if t.width != 0 then ShowNat(t.width) else "";
    var s := t.Show() + tail;
    assert s == t.name + (ext + tail);
  }

  lemma ShowStartsWithLetter(t: TypeId, tail: string)
    requires ValidTypeId(t)
    ensures SpaceRun(t.Show() + tail) == 0
    ensures t.name == FloatName ==> !StartsWith(t.Show() + tail, GentypeName)
  {
    var s := t.Show() + tail;
    assert s[0] == t.name[0];
  }

  /** A valid type identifier printed after some spaces and before a
      non-digit is read back by `parse_type_id`. */
  lemma ParseTypeIdOf(sp: string, t: TypeId, tail: string)
    requires AllSpaces(sp) && ValidTypeId(t)
    requires |tail| == 0 || !IsDigit(tail[0])
    ensures ParseTypeId(sp + t.Show() + tail) == Success((t, tail))
  {
    var s := t.Show() + tail;
    ShowSplits(t, tail);
    ShowStartsWithLetter(t, tail);
    assert sp + t.Show() + tail == sp + s;
    SpaceRunOver(sp, s);
    ScanWidthOf(t, tail);
  }

  /** An identifier printed after some spaces and before a non-word
      character is read back by `parse_identifier`. */
  lemma ParseIdentifierOf(sp: string, id: string, tail: string)
    requires AllSpaces(sp) && IsIdentifier(id)
    requires |tail| == 0 || !IsWordChar(tail[0])
    ensures ParseIdentifier(sp + id + tail) == Success((id, tail))
  {
    assert !IsSpace(id[0]);
    SpaceRunOver(sp, id + tail);
    assert sp + id + tail == sp + (id + tail);
    var s := id + tail;
    assert id == [id[0]] + id[1..];
    assert s == [id[0]] + (id[1..] + tail);
    assert s[1..] == id[1..] + tail;
    WordRunOver(id[1..], tail);
    assert s[..|id|] == id;
    assert s[|id|..] == tail;
  }

  lemma ParseArgOf(sp: string, a: Arg, tail: string)
    requires AllSpaces(sp) && ValidArg(a)
    requires |tail| == 0 || !IsWordChar(tail[0])
    ensures ParseArg(sp + ShowArg(a) + tail) == Success((a, tail))
  {
    var rest := " " + a.ident + tail;
    assert sp + ShowArg(a) + tail == sp + a.ty.Show() + rest;
    ParseTypeIdOf(sp, a.ty, rest);
    assert rest == " " + a.ident + tail;
    ParseIdentifierOf(" ", a.ident, tail);
  }

  lemma {:induction false} ParseArgListOf(sp: string, args: seq<Arg>, tail: string)
    requires AllSpaces(sp) && |args| > 0
    requires forall a :: a in args ==> ValidArg(a)
    requires |tail| > 0 && tail[0] == ')'
    ensures ParseArgList(sp + ShowArgs(args) + tail) == Success((args, tail))
    decreases |args|
  {
    assert args[0] in args;
    if |args| == 1 {
      ParseArgListLast(sp, args[0], tail);
      assert [args[0]] == args;
    } else {
      var others := ShowArgs(args[1..]);
      assert forall a :: a in args[1..] ==> a in args;
      ParseArgListOf(" ", args[1..], tail);
      HeadTail(args);
      assert ShowArgs(args) == ShowArg(args[0]) + ", " + others;
      ParseArgListNext(sp, args[0], others, ShowArgs(args), tail, args[1..], args);
    }
  }

  lemma HeadTail<T>(s: seq<T>)
    requires |s| > 0
    ensures [s[0]] + s[1..] == s
  {
  }

  lemma ParseArgListLast(sp: string, a: Arg, tail: string)
    requires AllSpaces(sp) && ValidArg(a)
    requires |tail| > 0 && tail[0] == ')'
    ensures ParseArgList(sp + ShowArgs([a]) + tail) == Success(([a], tail))
  {
    ParseArgOf(sp, a, tail);
    SpaceRunOver("", tail);
    assert "" + tail == tail;
  }

  lemma ParseArgListNext(sp: string, a: Arg, others: string, whole: string, tail: string, parsed: seq<Arg>, all: seq<Arg>)
    requires AllSpaces(sp) && ValidArg(a) && whole == ShowArg(a) + ", " + others && all == [a] + parsed
    requires ParseArgList(" " + others + tail) == Success((parsed, tail))
    ensures ParseArgList(sp + whole + tail) == Success((all, tail))
  {
    var more := " " + others + tail;
    var y := sp + ShowArg(a) + ("," + more);
    ParseArgBeforeComma(sp, a, more);
    CommaIsNotSpace(more);
    ArgListStep(y, a, "," + more, parsed, tail);
    CommaJoin(sp, ShowArg(a), others, tail);
  }

  lemma ParseArgBeforeComma(sp: string, a: Arg, more: string)
    requires AllSpaces(sp) && ValidArg(a)
    ensures ParseArg(sp + ShowArg(a) + ("," + more)) == Success((a, "," + more))
  {
    ParseArgOf(sp, a, "," + more);
  }

  lemma CommaIsNotSpace(more: string)
    ensures SkipSpaces("," + more) == "," + more
    ensures ("," + more)[1..] == more
  {
    SpaceRunOver("", "," + more);
    assert "" + ("," + more) == "," + more;
  }

  /** One round of the loop of `parse_arg_list` that finds a comma. */
  lemma ArgListStep(x: string, a: Arg, rest: string, parsed: seq<Arg>, tail: string)
    requires ParseArg(x) == Success((a, rest))
    requires SkipSpaces(rest) == rest && |rest| > 0 && rest[0] == ','
    requires ParseArgList(rest[1..]) == Success((parsed, tail))
    ensures ParseArgList(x) == Success(([a] + parsed, tail))
  {
  }

  lemma CommaJoin(sp: string, first: string, others: string, tail: string)
    ensures sp + (first + ", " + others) + tail == sp + first + ("," + (" " + others + tail))
  {
  }

  lemma SymbolOf(token: string, c: char, rest: string)
    requires !IsSpace(c)
    ensures ParseSymbol(token, c, [c] + rest) == Success(rest)
  {
    SpaceRunOver("", [c] + rest);
    assert "" + ([c] + rest) == [c] + rest;
    assert ([c] + rest)[1..] == rest;
  }

  /** The five steps of `Parser.parse_prototype` followed by `parse_end`. */
  lemma PrototypeSteps(x: string, t: TypeId, r1: string, name: string, r2: string, r3: string,
                       args: seq<Arg>, r4: string, r5: string)
    requires ParseTypeId(x) == Success((t, r1))
    requires ParseIdentifier(r1) == Success((name, r2))
    requires ParseSymbol("lpar", '(', r2) == Success(r3)
    requires ParseArgList(r3) == Success((args, r4))
    requires ParseSymbol("rpar", ')', r4) == Success(r5)
    requires |r5| == 0
    ensures ParsePrototype(x) == Success(Prototype(t, name, args))
  {
  }

  /** Printing a prototype the parser can produce and parsing the text
      again yields the same return type, name and arguments, in order. */
  lemma PrototypeRoundTrip(p: Prototype)
    requires WellFormed(p)
    ensures ParsePrototype(ShowPrototype(p)) == Success(p)
  {
    var argsText := ShowArgs(p.args);
    var afterName := "(" + argsText + ")";
    var afterRet := " " + p.name + afterName;
    PrototypeText(p);
    PrototypeHead(p.ret, p.name, afterName);
    PrototypeTail(p.args);
    PrototypeSteps(ShowPrototype(p), p.ret, afterRet, p.name, afterName, argsText + ")", p.args, ")", "");
  }

  /** The return type and the name, read off the front of a printed
      prototype. */
  lemma PrototypeHead(ret: TypeId, name: string, afterName: string)
    requires ValidTypeId(ret) && IsIdentifier(name)
    requires |afterName| > 0 && afterName[0] == '('
    ensures ParseTypeId("" + ret.Show() + (" " + name + afterName)) == Success((ret, " " + name + afterName))
    ensures ParseIdentifier(" " + name + afterName) == Success((name, afterName))
  {
    var afterRet := " " + name + afterName;
    assert afterRet[0] == ' ';
    ParseTypeIdOf("", ret, afterRet);
    ParseIdentifierOf(" ", name, afterName);
  }

  /** The parenthesised argument list, read off the end of a printed
      prototype. */
  lemma PrototypeTail(args: seq<Arg>)
    requires |args| > 0 && forall a :: a in args ==> ValidArg(a)
    ensures ParseSymbol("lpar", '(', "(" + ShowArgs(args) + ")") == Success(ShowArgs(args) + ")")
    ensures ParseArgList(ShowArgs(args) + ")") == Success((args, ")"))
    ensures ParseSymbol("rpar", ')', ")") == Success("")
  {
    var argsText := ShowArgs(args);
    Parenthesised(argsText);
    ArgListBeforeRpar(args);
    RparEnds();
  }

  lemma Parenthesised(text: string)
    ensures ParseSymbol("lpar", '(', "(" + text + ")") == Success(text + ")")
  {
    assert "(" + text + ")" == ['('] + (text + ")");
    SymbolOf("lpar", '(', text + ")");
  }

  lemma ArgListBeforeRpar(args: seq<Arg>)
    requires |args| > 0 && forall a :: a in args ==> ValidArg(a)
    ensures ParseArgList(ShowArgs(args) + ")") == Success((args, ")"))
  {
    assert "" + ShowArgs(args) + ")" == ShowArgs(args) + ")";
    ParseArgListOf("", args, ")");
  }

  lemma RparEnds()
    ensures ParseSymbol("rpar", ')', ")") == Success("")
  {
    SymbolOf("rpar", ')', "");
    assert [')'] + "" == ")";
  }

  lemma PrototypeText(p: Prototype)
    ensures ShowPrototype(p) == "" + p.ret.Show() + (" " + p.name + ("(" + ShowArgs(p.args) + ")"))
    ensures "(" + ShowArgs(p.args) + ")" == ['('] + (ShowArgs(p.args) + ")")
  {
  }

  /** A parsed prototype is already in the printer's canonical form. */
  lemma ParsedPrototypeIsCanonical(stream: string)
    requires ParsePrototype(stream).Success?
    ensures ParsePrototype(ShowPrototype(ParsePrototype(stream).value)) == ParsePrototype(stream)
  {
    PrototypeRoundTrip(ParsePrototype(stream).value);
  }

  /** Every name `vectors` lists for a known base type is a type identifier
      `parse_type_id` accepts, with the corresponding width. */
  lemma VectorsParse(base: string, i: nat)
    requires base == GentypeName || base == FloatName
    requires i < |VectorWidths|
    ensures ParseTypeIdStream(Vectors(base)[i]) == Success(TypeId(base, VectorWidths[i]))
  {
    var t := TypeId(base, VectorWidths[i]);
    assert Vectors(base)[i] == "" + t.Show() + "";
    ParseTypeIdOf("", t, "");
    SpaceRunOver("", "");
  }
}
