/** The implementation emitter of the TableGen-driven builtin library:
    for every builtin and every specialisation, a header with the
    attributes and the specialised signature, then either the user's base
    implementation (specialisation 0) or a lane-wise call of the scalar
    builtin gathered into a vector. */
module OclEmitter {
  import opened Results
  import opened Text
  import opened OclBuiltin

  /** What stops the emitter: a thrown string, or `llvm_unreachable`. */
  datatype EmitError = Thrown(msg: string) | Unreachable(msg: string)

  function Lift<T>(r: Result<T, string>): Result<T, EmitError> {
    match r
    case Success(v) => Success(v)
    case Failure(m) => Failure(Thrown(m))
  }

  /** The specialised parameter declarations `T0 x0`, `T1 x1`, ... */
  function ParamDecls(b: Builtin, spec: nat, i: nat): (r: Result<seq<string>, string>)
    requires i <= |b.params|
    ensures r.Success? ==> |r.value| == |b.params| - i
    ensures r.Success? ==> forall k :: 0 <= k < |r.value| ==>
      Specialize(b, b.params[i + k], spec).Success?
      && r.value[k] == Specialize(b, b.params[i + k], spec).value.Name() + " x" + ShowNat(i + k)
    ensures r.Failure? <==> exists k :: i <= k < |b.params| && Specialize(b, b.params[k], spec).Failure?
    decreases |b.params| - i
  {
    if i == |b.params| then Success([])
    else
      var t :- SpecializedParameterType(b, i, spec);
      var more :- ParamDecls(b, spec, i + 1);
      Success([t.Name() + " x" + ShowNat(i)] + more)
  }

  /** `OCLLibEmitter::EmitHeader`. */
  function Header(b: Builtin, spec: nat): (r: Result<string, EmitError>)
    ensures r.Success? <==> ReturnType(b, spec).Success? && ParamDecls(b, spec, 0).Success?
    ensures r.Success? ==>
      r.value == "__attribute__((" + Join(",", b.attrs) + "))\n"
                 + ReturnType(b, spec).value.Name() + " " + b.name
                 + "(" + Join(", ", ParamDecls(b, spec, 0).value) + ")"
  {
    var ret :- Lift(ReturnType(b, spec));
    var params :- Lift(ParamDecls(b, spec, 0));
    JoinLoop(",", b.attrs);
    JoinLoop(", ", params);
    Success("__attribute__((" + JoinFrom(",", b.attrs, 0) + "))\n"
            + ret.Name() + " " + b.name + "(" + JoinFrom(", ", params, 0) + ")")
  }

  /** The argument of parameter `j` in lane `lane`: `xj`, indexed by the lane
      when the declared parameter type is generic. */
  function LaneArg(b: Builtin, j: nat, lane: nat): string
    requires j < |b.params|
  {
    "x" + ShowNat(j) + (if b.params[j].Gen? then "[" + ShowNat(lane) + "]" else "")
  }

  function LaneArgs(b: Builtin, lane: nat): (r: seq<string>)
    ensures |r| == |b.params|
  {
    seq(|b.params|, j requires 0 <= j < |b.params| => LaneArg(b, j, lane))
  }

  /** The call of lane `lane`. */
  function LaneCall(b: Builtin, lane: nat): string {
    "  RawRetValue[" + ShowNat(lane) + "]" + LaneTail(b, lane)
  }

  /** What follows the array element in the call of lane `lane`. */
  function LaneTail(b: Builtin, lane: nat): string {
    " = " + b.name + "(" + JoinFrom(", ", LaneArgs(b, lane), 0) + ");\n"
  }

  function LaneCalls(b: Builtin, width: nat): (r: seq<string>)
    ensures |r| == width
  {
    seq(width, i requires 0 <= i < width => LaneCall(b, i))
  }

  /** The initialiser elements `RawRetValue[0]` ... `RawRetValue[width-1]`. */
  function Gathered(width: nat): (r: seq<string>)
    ensures |r| == width
  {
    seq(width, i requires 0 <= i < width => "    RawRetValue[" + ShowNat(i) + "]")
  }

  /** The body of a specialisation above 0, whose return type is a vector:
      one scalar call per lane into an array, then the array gathered. */
  function VectBody(b: Builtin, base: string, width: nat): string {
    "  " + base + " RawRetValue[" + ShowNat(width) + "];\n\n"
    + Concat(LaneCalls(b, width))
    + "\n"
    + "  " + Vect(base, width).Name() + " RetValue = {\n"
    + JoinFrom(",\n", Gathered(width), 0) + "\n"
    + "  };\n\n"
    + "  return RetValue;\n"
  }

  /** `OCLLibImplEmitter::EmitImplementation`. */
  function Implementation(b: Builtin, spec: nat): (r: Result<string, EmitError>)
    ensures Header(b, spec).Failure? ==> r.Failure?
    ensures spec == 0 && Header(b, spec).Success? ==>
      r == Success(Header(b, spec).value + " {\n" + "  " + b.baseImpl + "\n" + "}\n")
    ensures spec > 0 && Header(b, spec).Success? ==>
      (r.Success? <==> ReturnType(b, spec).value.Vect?)
    ensures spec > 0 && r.Success? ==>
      var rt := ReturnType(b, spec).value;
      r.value == Header(b, spec).value + " {\n" + VectBody(b, rt.baseName, rt.width) + "}\n"
  {
    var header :- Header(b, spec);
    if spec == 0 then Success(header + " {\n" + "  " + b.baseImpl + "\n" + "}\n")
    else
      var rt := ReturnType(b, spec).value;
      if !rt.Vect? then Failure(Unreachable("Not yet implemented"))
      else Success(header + " {\n" + VectBody(b, rt.baseName, rt.width) + "}\n")
  }

  /** Specialisation `spec` as `run` writes it: a blank line first unless it is the first. */
  function Entry(b: Builtin, spec: nat): Result<string, EmitError> {
    var impl :- Implementation(b, spec);
    Success((if spec != 0 then "\n" else "") + impl)
  }

  /** The specialisations `0..count-1` of one builtin, the first failure stopping them. */
  function Specs(b: Builtin, count: nat): (r: Result<seq<string>, EmitError>)
    ensures r.Success? ==> |r.value| == count
    ensures r.Success? ==> forall k :: 0 <= k < count ==> Entry(b, k) == Success(r.value[k])
  {
    Collect(seq(count, k requires 0 <= k < count => Entry(b, k)))
  }

  /** Every specialisation of one builtin, in order. */
  function AllSpecs(b: Builtin): (r: Result<seq<string>, EmitError>)
    ensures r.Success? ==> |r.value| == SpecializationsCount(b)
  {
    Specs(b, SpecializationsCount(b))
  }

  /** `OCLLibImplEmitter::run` after the banner: every builtin's
      specialisations, builtins in order, the first failure stopping the
      output. */
  function EmitAll(bs: seq<Builtin>): (r: Result<seq<string>, EmitError>)
    ensures r.Success? <==> forall i :: 0 <= i < |bs| ==> AllSpecs(bs[i]).Success?
  {
    var rs := Parts(bs);
    var parts :- Collect(rs);
    Success(Flatten(parts))
  }

  function Parts(bs: seq<Builtin>): (r: seq<Result<seq<string>, EmitError>>)
    ensures |r| == |bs| && forall i :: 0 <= i < |bs| ==> r[i] == AllSpecs(bs[i])
  {
    seq(|bs|, i requires 0 <= i < |bs| => AllSpecs(bs[i]))
  }

  /** The specialisations of every builtin, when all of them emit. */
  function SpecLists(bs: seq<Builtin>): (r: seq<seq<string>>)
    requires forall i :: 0 <= i < |bs| ==> AllSpecs(bs[i]).Success?
    ensures |r| == |bs|
    ensures forall i :: 0 <= i < |bs| ==> |r[i]| == SpecializationsCount(bs[i])
  {
    seq(|bs|, i requires 0 <= i < |bs| => AllSpecs(bs[i]).value)
  }

  /** Emission succeeds exactly when every specialisation of every builtin
      does. */
  lemma EmitAllSucceeds(bs: seq<Builtin>)
    ensures EmitAll(bs).Success? <==>
      forall i, k :: 0 <= i < |bs| && 0 <= k < SpecializationsCount(bs[i]) ==> Entry(bs[i], k).Success?
  {
    forall i | 0 <= i < |bs| {
      SpecsFail(bs[i], SpecializationsCount(bs[i]));
    }
  }

  /** After a successful emission, specialisation `k` of builtin `i` is
      the entry after the specialisations of every builtin before it:
      builtins in order, each one's specialisations in order. By the
      contract of `Specs`, that entry is `Entry(bs[i], k)`. */
  lemma EmitAllPlaces(bs: seq<Builtin>, i: nat, k: nat)
    requires EmitAll(bs).Success?
    requires i < |bs| && k < SpecializationsCount(bs[i])
    ensures EmitAll(bs).value == Flatten(SpecLists(bs))
    ensures Start(SpecLists(bs), i) + k < |EmitAll(bs).value|
    ensures EmitAll(bs).value[Start(SpecLists(bs), i) + k] == AllSpecs(bs[i]).value[k]
  {
    var lists := SpecLists(bs);
    var parts := Collect(Parts(bs)).value;
    assert parts == lists by {
      assert forall j :: 0 <= j < |bs| ==> Parts(bs)[j] == Success(parts[j]);
    }
    FlattenPlaces(lists, i, k);
  }

  /** The specialisations of one builtin fail exactly when one of them does. */
  lemma SpecsFail(b: Builtin, count: nat)
    ensures Specs(b, count).Success? <==> forall k :: 0 <= k < count ==> Entry(b, k).Success?
  {
    var rs := seq(count, k requires 0 <= k < count => Entry(b, k));
    if Specs(b, count).Failure? {
      var k :| 0 <= k < |rs| && rs[k] == Failure(Specs(b, count).error);
    }
  }

  /** `OCLLibImplEmitter::run`: load every builtin, then emit after the
      banner. A loading error is thrown before anything is written; the
      first emission error stops the output; otherwise the output is the
      banner and then the specialisations in the order of `EmitAll`. */
  function Run(banner: string, recs: seq<BuiltinRecord>): (r: Result<string, EmitError>)
    ensures LoadBuiltins([], recs).Failure? ==> r == Failure(Thrown(LoadBuiltins([], recs).error))
    ensures LoadBuiltins([], recs).Success? ==>
      var parts := EmitAll(LoadBuiltins([], recs).value);
      && (r.Success? <==> parts.Success?)
      && (r.Success? ==> r.value == banner + Concat(parts.value))
      && (r.Failure? ==> r.error == parts.error)
  {
    var bs :- Lift(LoadBuiltins([], recs));
    var parts :- EmitAll(bs);
    Success(banner + Concat(parts))
  }

  /** Each lane calls the scalar builtin once, writing that lane of the
      array; generic arguments are indexed by the lane and the others passed
      as they are. */
  lemma LaneCallShape(b: Builtin, lane: nat)
    ensures LaneCall(b, lane) ==
      "  RawRetValue[" + ShowNat(lane) + "] = " + b.name + "(" + Join(", ", LaneArgs(b, lane)) + ");\n"
    ensures forall j :: 0 <= j < |b.params| ==>
      (b.params[j].Gen? <==> LaneArgs(b, lane)[j] == "x" + ShowNat(j) + "[" + ShowNat(lane) + "]")
  {
    JoinLoop(", ", LaneArgs(b, lane));
    forall j | 0 <= j < |b.params|
      ensures b.params[j].Gen? <==> LaneArgs(b, lane)[j] == "x" + ShowNat(j) + "[" + ShowNat(lane) + "]"
    {
      LaneArgIndexed(b, j, lane);
    }
  }

  /** One argument is indexed by the lane exactly when it is generic. */
  lemma LaneArgIndexed(b: Builtin, j: nat, lane: nat)
    requires j < |b.params|
    ensures b.params[j].Gen? <==> LaneArg(b, j, lane) == "x" + ShowNat(j) + "[" + ShowNat(lane) + "]"
  {
    var x := "x" + ShowNat(j);
    if !b.params[j].Gen? {
      assert |LaneArg(b, j, lane)| == |x| < |x + "[" + ShowNat(lane) + "]"|;
    }
  }

  /** The length of the run of digits a string starts with. */
  function DigitRun(s: string): (r: nat)
    ensures r <= |s|
  {
    if |s| == 0 || !IsDigit(s[0]) then 0 else 1 + DigitRun(s[1..])
  }

  lemma {:induction false} DigitRunBeforeBracket(a: string, x: string)
    requires forall i :: 0 <= i < |a| ==> IsDigit(a[i])
    ensures DigitRun(a + "]" + x) == |a|
    decreases |a|
  {
    if |a| > 0 {
      assert (a + "]" + x)[1..] == a[1..] + "]" + x;
      DigitRunBeforeBracket(a[1..], x);
    }
  }

  /** A run of digits followed by `]` is read back unambiguously. */
  lemma DigitsThenBracket(a: string, x: string, b: string, y: string)
    requires forall i :: 0 <= i < |a| ==> IsDigit(a[i])
    requires forall i :: 0 <= i < |b| ==> IsDigit(b[i])
    requires a + "]" + x == b + "]" + y
    ensures a == b
  {
    var s := a + "]" + x;
    DigitRunBeforeBracket(a, x);
    DigitRunBeforeBracket(b, y);
    assert a == s[..|a|];
    assert b == s[..|b|];
  }

  /** Two lanes whose array elements print alike are the same lane. */
  lemma ElementNamesLane(prefix: string, i: nat, x: string, j: nat, y: string)
    requires prefix + ShowNat(i) + "]" + x == prefix + ShowNat(j) + "]" + y
    ensures i == j
  {
    var s := prefix + ShowNat(i) + "]" + x;
    assert ShowNat(i) + "]" + x == s[|prefix|..];
    assert ShowNat(j) + "]" + y == s[|prefix|..];
    DigitsThenBracket(ShowNat(i), x, ShowNat(j), y);
    ShowNatInjective(i, j);
  }

  /** Each array element is written by exactly one lane call: the calls of
      distinct lanes write distinct elements, and lane `i` writes element
      `i`. */
  lemma LaneCallsDistinct(b: Builtin, width: nat, i: nat, j: nat)
    requires i < width && j < width && i != j
    ensures LaneCalls(b, width)[i] != LaneCalls(b, width)[j]
  {
    if LaneCalls(b, width)[i] == LaneCalls(b, width)[j] {
      ElementNamesLane("  RawRetValue[", i, LaneTail(b, i), j, LaneTail(b, j));
    }
  }

  /** The vector gathers every array element exactly once: distinct
      positions of the initialiser name distinct elements, and position
      `i` names element `i`. */
  lemma GatheredDistinct(width: nat, i: nat, j: nat)
    requires i < width && j < width && i != j
    ensures Gathered(width)[i] != Gathered(width)[j]
  {
    if Gathered(width)[i] == Gathered(width)[j] {
      assert Gathered(width)[i] == "    RawRetValue[" + ShowNat(i) + "]" + "";
      assert Gathered(width)[j] == "    RawRetValue[" + ShowNat(j) + "]" + "";
      ElementNamesLane("    RawRetValue[", i, "", j, "");
    }
  }

  /** The implementations of specialisations `0..count-1`, all of which
      exist. */
  function Impls(b: Builtin, count: nat): (r: seq<string>)
    requires forall k :: 0 <= k < count ==> Implementation(b, k).Success?
    ensures |r| == count
  {
    seq(count, k requires 0 <= k < count && Implementation(b, k).Success? => Implementation(b, k).value)
  }

  /** The loop of `run` writes a builtin's specialisations as their
      implementations joined by a newline; since each implementation ends
      with one, consecutive specialisations are separated by a blank
      line. */
  lemma {:induction false} SpecsJoined(b: Builtin, count: nat)
    requires Specs(b, count).Success?
    ensures forall k :: 0 <= k < count ==> Implementation(b, k).Success?
    ensures Concat(Specs(b, count).value) == Join("\n", Impls(b, count))
  {
    var parts := Specs(b, count).value;
    forall k | 0 <= k < count
      ensures Implementation(b, k).Success? && parts[k] == (if k != 0 then "\n" else "") + Implementation(b, k).value
    {
      assert Entry(b, k) == Success(parts[k]);
    }
    ConcatIsJoinFrom(parts, Impls(b, count), 0);
    JoinLoop("\n", Impls(b, count));
  }

  /** Writing a newline before every item but the first is joining by a
      newline. */
  lemma {:induction false} ConcatIsJoinFrom(parts: seq<string>, xs: seq<string>, i: nat)
    requires |parts| == |xs| && i <= |xs|
    requires forall k :: 0 <= k < |xs| ==> parts[k] == (if k != 0 then "\n" else "") + xs[k]
    ensures Concat(parts[i..]) == JoinFrom("\n", xs, i)
    decreases |xs| - i
  {
    if i < |xs| {
      ConcatIsJoinFrom(parts, xs, i + 1);
      assert parts[i..][1..] == parts[i + 1..];
    }
  }
}
