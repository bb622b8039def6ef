/** The text emitters of a `Function`: overloaded declarations, scalar
    bodies built from the template, and lane-wise vector bodies. Each sink
    receives a sequence of text fragments, one per entry the emitter
    writes; an error that escapes leaves the fragments written before it. */
module GenEmit {
  import opened Results
  import opened Text
  import opened GenTypes
  import opened GenParser
  import opened GenErrors
  import opened GenRoundTrip
  import opened GenTemplate
  import opened GenFunction

  function ArgStrings(args: seq<Arg>): (r: seq<string>)
    ensures |r| == |args|
  {
    seq(|args|, i requires 0 <= i < |args| => ShowArg(args[i]))
  }

  /** `Prototype.__str__`'s argument list is the reference join of the printed arguments. */
  lemma {:induction false} ShowArgsIsJoin(args: seq<Arg>)
    ensures ShowArgs(args) == Join(", ", ArgStrings(args))
    decreases |args|
  {
    var xs := ArgStrings(args);
    if |args| > 1 {
      ShowArgsIsJoin(args[1..]);
      ArgStringsTail(args);
      assert Join(", ", xs) == xs[0] + ", " + Join(", ", xs[1..]);
      assert ShowArgs(args) == ShowArg(args[0]) + ", " + ShowArgs(args[1..]);
    } else if |args| == 1 {
      assert Join(", ", xs) == xs[0];
    }
  }

  lemma ArgStringsTail(args: seq<Arg>)
    requires |args| > 0
    ensures ArgStrings(args)[1..] == ArgStrings(args[1..])
  {
  }

  /** `emit_type_id`: a `gentype` slot takes the instantiation type, a fixed slot stays. */
  function Instantiate(slot: TypeId, ty: TypeId): (r: TypeId)
    ensures slot.IsGentype() ==> r == ty
    ensures !slot.IsGentype() ==> r == slot
  {
    if slot.IsGentype() then ty else slot
  }

  /** The prototype with every `gentype` slot replaced by `ty`. */
  function InstantiatePrototype(p: Prototype, ty: TypeId): (r: Prototype)
    ensures r.name == p.name && |r.args| == |p.args|
    ensures forall i :: 0 <= i < |p.args| ==> r.args[i].ident == p.args[i].ident
  {
    Prototype(Instantiate(p.ret, ty), p.name,
              seq(|p.args|, i requires 0 <= i < |p.args| => Arg(Instantiate(p.args[i].ty, ty), p.args[i].ident)))
  }

  /** Instantiating a parsable prototype with a parsable type gives a parsable prototype. */
  lemma InstantiateWellFormed(p: Prototype, ty: TypeId)
    requires WellFormed(p) && ValidTypeId(ty)
    ensures WellFormed(InstantiatePrototype(p, ty))
  {
    var q := InstantiatePrototype(p, ty);
    forall a | a in q.args
      ensures ValidArg(a)
    {
      var i :| 0 <= i < |q.args| && q.args[i] == a;
      assert p.args[i] in p.args;
    }
  }

  /** `emit_attributes`. */
  function Attributes(pure: bool, inline: bool): (r: string)
    ensures StartsWith(r, "__attribute__((overloadable))")
  {
    "__attribute__((overloadable))"
    + (if pure then "\n__attribute__((pure))" else "")
    + (if inline then "\n__attribute__((always_inline))" else "")
  }

  /** The attribute lines: the pure line is present iff `pure`, the always_inline line iff `inline`. */
  lemma AttributesLines(pure: bool, inline: bool)
    ensures |Attributes(pure, inline)| == 29 + (if pure then 22 else 0) + (if inline then 31 else 0)
    ensures pure ==> Attributes(pure, inline)[29..51] == "\n__attribute__((pure))"
    ensures inline ==> Attributes(pure, inline)[|Attributes(pure, inline)| - 31..] == "\n__attribute__((always_inline))"
    ensures !pure && !inline ==> Attributes(pure, inline) == "__attribute__((overloadable))"
  {
  }

  /** One argument of `emit_header`'s loop, instantiated. */
  function HeaderArg(a: Arg, ty: TypeId): string {
    Instantiate(a.ty, ty).Show() + " " + a.ident
  }

  function HeaderArgs(args: seq<Arg>, ty: TypeId): (r: seq<string>)
    ensures |r| == |args|
  {
    seq(|args|, i requires 0 <= i < |args| => HeaderArg(args[i], ty))
  }

  /** The signature part of `emit_header`, written as its loop writes it. */
  function Signature(p: Prototype, ty: TypeId): string {
    Instantiate(p.ret, ty).Show() + " " + p.name + "(" + JoinFrom(", ", HeaderArgs(p.args, ty), 0) + ")"
  }

  /** The signature is the instantiated prototype as `Prototype.__str__` prints it. */
  lemma SignatureIsInstantiatedPrototype(p: Prototype, ty: TypeId)
    ensures Signature(p, ty) == ShowPrototype(InstantiatePrototype(p, ty))
  {
    var q := InstantiatePrototype(p, ty);
    JoinLoop(", ", HeaderArgs(p.args, ty));
    ShowArgsIsJoin(q.args);
    assert HeaderArgs(p.args, ty) == ArgStrings(q.args);
    assert q.ret.Show() == Instantiate(p.ret, ty).Show();
  }

  /** Every emitted signature parses back to the instantiated prototype. */
  lemma SignatureReparses(p: Prototype, ty: TypeId)
    requires WellFormed(p) && ValidTypeId(ty)
    ensures ParsePrototype(Signature(p, ty)) == Success(InstantiatePrototype(p, ty))
  {
    SignatureIsInstantiatedPrototype(p, ty);
    InstantiateWellFormed(p, ty);
    PrototypeRoundTrip(InstantiatePrototype(p, ty));
  }

  /** `emit_header`: the attributes, a newline, then the signature. */
  function Header(p: Prototype, pure: bool, inline: bool, ty: TypeId): string {
    Attributes(pure, inline) + "\n" + Signature(p, ty)
  }

  /** What an emitter wrote, and the error that stopped it, if any. */
  datatype Emitted = Emitted(out: seq<string>, escape: Option<Escape>)

  function DeclsComment(proto: Value): string {
    "\n/* Declarations of " + ShowValue(proto) + " */\n"
  }

  function ImplsComment(proto: Value): string {
    "\n/* Implementations of " + ShowValue(proto) + " */\n"
  }

  /** `emit_decls`: nothing for an empty list, otherwise the comment once and
      one declaration per type. Reading `types` before it was ever assigned,
      or `ret_ty` of a prototype that is not one, raises `AttributeError`. */
  function EmitDecls(d: Descriptor): (r: Emitted)
    ensures d.types.None? ==> r == Emitted([], Some(AttributeError("types")))
    ensures d.types == Some([]) ==> r == Emitted([], None)
    ensures d.types.Some? && |d.types.value| > 0 ==> |r.out| > 0 && r.out[0] == DeclsComment(d.proto)
    ensures d.types.Some? && |d.types.value| > 0 && d.proto.Proto? ==>
      && r.escape.None?
      && |r.out| == 1 + |d.types.value|
      && forall i :: 0 <= i < |d.types.value| ==>
           r.out[1 + i] == Header(d.proto.p, d.pure, d.inline, d.types.value[i]) + ";\n"
    ensures d.types.Some? && |d.types.value| > 0 && !d.proto.Proto? ==>
      r == Emitted([DeclsComment(d.proto), Attributes(d.pure, d.inline) + "\n"], Some(AttributeError("ret_ty")))
  {
    match d.types
    case None => Emitted([], Some(AttributeError("types")))
    case Some(ts) =>
      if |ts| == 0 then Emitted([], None)
      else if !d.proto.Proto? then
        Emitted([DeclsComment(d.proto), Attributes(d.pure, d.inline) + "\n"], Some(AttributeError("ret_ty")))
      else
        Emitted(DeclsOf(DeclsComment(d.proto), d.proto.p, d.pure, d.inline, ts), None)
  }

  /** One declaration: the header and a semicolon. */
  function DeclLine(p: Prototype, pure: bool, inline: bool, ty: TypeId): string {
    Header(p, pure, inline, ty) + ";\n"
  }

  /** The comment, then one declaration per type, in order. */
  function DeclsOf(comment: string, p: Prototype, pure: bool, inline: bool, ts: seq<TypeId>): (r: seq<string>)
    ensures |r| == 1 + |ts| && r[0] == comment
    ensures forall i :: 0 <= i < |ts| ==> r[1 + i] == DeclLine(p, pure, inline, ts[i])
  {
    var lines := DeclLines(p, pure, inline, ts);
    ConsIndex(comment, lines);
    [comment] + lines
  }

  function DeclLines(p: Prototype, pure: bool, inline: bool, ts: seq<TypeId>): (r: seq<string>)
    ensures |r| == |ts|
    ensures forall i :: 0 <= i < |ts| ==> r[i] == DeclLine(p, pure, inline, ts[i])
  {
    seq(|ts|, i requires 0 <= i < |ts| => DeclLine(p, pure, inline, ts[i]))
  }

  /** A lane's argument: a `gentype` argument indexed by the lane, a fixed one as is. */
  function LaneArg(a: Arg, lane: nat): string {
    if a.ty.IsGentype() then a.ident + "[" + ShowNat(lane) + "]" else a.ident
  }

  function LaneArgs(args: seq<Arg>, lane: nat): (r: seq<string>)
    ensures |r| == |args|
  {
    seq(|args|, j requires 0 <= j < |args| => LaneArg(args[j], lane))
  }

  /** One lane of `emit_vect_body`: a scalar call assigned to `Res[lane]`,
      or to the whole `Res` when the return type is fixed. */
  function LaneLine(p: Prototype, lane: nat): string {
    (if p.ret.IsGentype() then "Res[" + ShowNat(lane) + "] = " else "Res = ")
    + p.name + "(" + JoinFrom(", ", LaneArgs(p.args, lane), 0) + ");\n"
  }

  function LanesFrom(p: Prototype, lane: nat, width: nat): string
    decreases width - lane
  {
    if lane >= width then "" else LaneLine(p, lane) + LanesFrom(p, lane + 1, width)
  }

  /** `emit_vect_body` for a vector instantiation type. */
  function VectBody(p: Prototype, ty: TypeId): string {
    (if p.ret.IsGentype() then ty else p.ret).Show() + " Res;\n"
    + LanesFrom(p, 0, ty.width)
    + "return Res;\n"
  }

  /** The lines a vector body is made of, stated independently of the emitter's loop. */
  predicate VectLines(p: Prototype, ty: TypeId, lines: seq<string>) {
    && |lines| == ty.width + 2
    && lines[0] == (if p.ret.IsGentype() then ty else p.ret).Show() + " Res;\n"
    && (forall i :: 0 <= i < ty.width ==>
          lines[1 + i] == (if p.ret.IsGentype() then "Res[" + ShowNat(i) + "] = " else "Res = ")
                          + p.name + "(" + Join(", ", LaneArgs(p.args, i)) + ");\n")
    && lines[ty.width + 1] == "return Res;\n"
  }

  function LaneLinesFrom(p: Prototype, lane: nat, width: nat): (r: seq<string>)
    requires lane <= width
    ensures |r| == width - lane
  {
    seq(width - lane, k requires 0 <= k < width - lane => LaneLine(p, lane + k))
  }

  lemma {:induction false} LanesLines(p: Prototype, lane: nat, width: nat)
    requires lane <= width
    ensures LanesFrom(p, lane, width) == Concat(LaneLinesFrom(p, lane, width))
    decreases width - lane
  {
    if lane < width {
      LanesLines(p, lane + 1, width);
      assert LaneLinesFrom(p, lane, width)[1..] == LaneLinesFrom(p, lane + 1, width);
    }
  }

  function VectLineSeq(p: Prototype, ty: TypeId): seq<string> {
    [(if p.ret.IsGentype() then ty else p.ret).Show() + " Res;\n"]
    + LaneLinesFrom(p, 0, ty.width)
    + ["return Res;\n"]
  }

  lemma VectBodyIsConcat(p: Prototype, ty: TypeId)
    ensures VectBody(p, ty) == Concat(VectLineSeq(p, ty))
  {
    var decl := (if p.ret.IsGentype() then ty else p.ret).Show() + " Res;\n";
    var lanes := LaneLinesFrom(p, 0, ty.width);
    LanesLines(p, 0, ty.width);
    ConcatAppend([decl] + lanes, ["return Res;\n"]);
    ConcatAppend([decl], lanes);
    assert Concat(["return Res;\n"]) == "return Res;\n";
    assert Concat([decl]) == decl;
  }

  lemma VectLineSeqLines(p: Prototype, ty: TypeId)
    ensures VectLines(p, ty, VectLineSeq(p, ty))
  {
    var lines := VectLineSeq(p, ty);
    forall i | 0 <= i < ty.width
      ensures lines[1 + i] == (if p.ret.IsGentype() then "Res[" + ShowNat(i) + "] = " else "Res = ")
                              + p.name + "(" + Join(", ", LaneArgs(p.args, i)) + ");\n"
    {
      JoinLoop(", ", LaneArgs(p.args, i));
      assert lines[1 + i] == LaneLine(p, i);
    }
  }

  /** A vector body is a declaration of `Res`, exactly `width` call lines in
      lane order, and a return. */
  lemma VectBodyShape(p: Prototype, ty: TypeId)
    ensures exists lines :: VectLines(p, ty, lines) && VectBody(p, ty) == Concat(lines)
  {
    VectBodyIsConcat(p, ty);
    VectLineSeqLines(p, ty);
  }

  /** With a fixed return type every lane assigns the whole, unindexed `Res`,
      so each lane overwrites the previous one. */
  lemma FixedReturnOverwrites(p: Prototype, lane: nat)
    requires !p.ret.IsGentype()
    ensures StartsWith(LaneLine(p, lane), "Res = ")
  {
  }

  /** The body part of one implementation, or the error that stops it:
      a scalar type substitutes `cty` into the template, a vector type
      calls the scalar version once per lane. */
  function ImplBody(d: Descriptor, p: Prototype, ty: TypeId): (r: Result<string, Escape>)
    ensures !ty.IsBase() ==> r == Success(VectBody(p, ty))
    ensures ty.IsBase() && d.body.None? ==> r == Failure(AttributeError("body"))
    ensures ty.IsBase() && d.body.Some? && !d.body.value.Str? ==> r == Failure(TypeError)
    ensures ty.IsBase() && d.body.Some? && d.body.value.Str? ==>
      match Substitute(d.body.value.s, ty.Cty())
      case Success(s) => r == Success(s + "\n")
      case Failure(x) => r == Failure(x)
  {
    if !ty.IsBase() then Success(VectBody(p, ty))
    else match d.body
      case None => Failure(AttributeError("body"))
      case Some(Str(t)) =>
        var s :- Substitute(t, ty.Cty());
        Success(s + "\n")
      case Some(_) => Failure(TypeError)
  }

  function ImplOpen(d: Descriptor, p: Prototype, ty: TypeId): string {
    "\n" + Header(p, d.pure, d.inline, ty) + " {\n"
  }

  /** One implementation as the loop writes it: the header and the whole
      body, or only the header when the body raised. */
  datatype Entry = Done(text: string) | Stopped(partial: string, error: Escape)

  function ImplEntry(d: Descriptor, p: Prototype, ty: TypeId): (e: Entry)
    ensures e.Done? <==> ImplBody(d, p, ty).Success?
    ensures e.Done? ==> e.text == ImplOpen(d, p, ty) + ImplBody(d, p, ty).value + "}\n"
    ensures e.Stopped? ==> ImplBody(d, p, ty) == Failure(e.error)
  {
    match ImplBody(d, p, ty)
    case Failure(x) => Stopped(ImplOpen(d, p, ty), x)
    case Success(b) => Done(ImplOpen(d, p, ty) + b + "}\n")
  }

  function ImplEntries(d: Descriptor, p: Prototype, ts: seq<TypeId>): (es: seq<Entry>)
    ensures |es| == |ts|
    ensures forall k :: 0 <= k < |ts| ==> (es[k].Done? <==> ImplBody(d, p, ts[k]).Success?)
    ensures forall k :: 0 <= k < |ts| && es[k].Stopped? ==> ImplBody(d, p, ts[k]) == Failure(es[k].error)
    ensures forall k :: 0 <= k < |ts| && es[k].Done? ==>
      es[k].text == ImplOpen(d, p, ts[k]) + ImplBody(d, p, ts[k]).value + "}\n"
  {
    seq(|ts|, k requires 0 <= k < |ts| => ImplEntry(d, p, ts[k]))
  }

  /** The loop over the entries from `i` on: each finished entry is written
      and the first stopped one ends the run with its error. */
  function RunEntries(es: seq<Entry>, i: nat): (r: Emitted)
    requires i <= |es|
    ensures |r.out| <= |es| - i
    ensures r.escape.None? ==> |r.out| == |es| - i
    decreases |es| - i
  {
    if i == |es| then Emitted([], None)
    else match es[i]
      case Stopped(partial, x) => Emitted([partial], Some(x))
      case Done(text) =>
        var more := RunEntries(es, i + 1);
        Emitted([text] + more.out, more.escape)
  }

  /** A run that ends without error wrote every entry, each finished, in
      order. */
  lemma {:induction false} RunEntriesDone(es: seq<Entry>, i: nat)
    requires i <= |es| && RunEntries(es, i).escape.None?
    ensures forall k :: i <= k < |es| ==> es[k].Done? && RunEntries(es, i).out[k - i] == es[k].text
    decreases |es| - i
  {
    if i < |es| {
      var more := RunEntries(es, i + 1);
      assert es[i].Done?;
      RunEntriesDone(es, i + 1);
      ConsIndex(es[i].text, more.out);
    }
  }

  /** A run ends with an error exactly when some entry stopped, and then
      its last line is the first stopped entry's, with that entry's
      error. */
  lemma {:induction false} RunEntriesStops(es: seq<Entry>, i: nat)
    requires i <= |es|
    ensures RunEntries(es, i).escape.Some? <==> exists k :: i <= k < |es| && es[k].Stopped?
    ensures RunEntries(es, i).escape.Some? ==>
      var n := |RunEntries(es, i).out|;
      && 0 < n && i + n - 1 < |es|
      && es[i + n - 1].Stopped? && es[i + n - 1].error == RunEntries(es, i).escape.value
      && (forall k :: i <= k < i + n - 1 ==> es[k].Done?)
    decreases |es| - i
  {
    if i < |es| && es[i].Done? {
      RunEntriesStops(es, i + 1);
      if RunEntries(es, i + 1).escape.Some? {
        var k :| i + 1 <= k < |es| && es[k].Stopped?;
        assert i <= k < |es|;
      }
    }
  }

  /** The entry a run that ends with an error stopped at. */
  lemma RunStopsAt(es: seq<Entry>, i: nat) returns (j: nat)
    requires i <= |es| && RunEntries(es, i).escape.Some?
    ensures j == i + |RunEntries(es, i).out| - 1 && j < |es|
    ensures es[j].Stopped? && es[j].error == RunEntries(es, i).escape.value
    ensures forall k :: i <= k < j ==> es[k].Done?
  {
    RunEntriesStops(es, i);
    j := i + |RunEntries(es, i).out| - 1;
  }

  /** The implementations of `types[i..]`, stopping at the first error;
      the entry that failed keeps what was written of it. */
  function ImplsFrom(d: Descriptor, p: Prototype, ts: seq<TypeId>, i: nat): (r: Emitted)
    requires i <= |ts|
    ensures |r.out| <= |ts| - i
    ensures r.escape.None? ==> |r.out| == |ts| - i
  {
    RunEntries(ImplEntries(d, p, ts), i)
  }

  /** `emit_impls`. */
  function EmitImpls(d: Descriptor): (r: Emitted)
    ensures d.types.None? ==> r == Emitted([], Some(AttributeError("types")))
    ensures d.types == Some([]) ==> r == Emitted([], None)
    ensures d.types.Some? && |d.types.value| > 0 ==> |r.out| > 0 && r.out[0] == ImplsComment(d.proto)
    ensures d.types.Some? && |d.types.value| > 0 && !d.proto.Proto? ==>
      r == Emitted([ImplsComment(d.proto), "\n" + Attributes(d.pure, d.inline) + "\n"], Some(AttributeError("ret_ty")))
    ensures r.escape.None? && d.types.Some? && |d.types.value| > 0 ==> |r.out| == 1 + |d.types.value|
  {
    match d.types
    case None => Emitted([], Some(AttributeError("types")))
    case Some(ts) =>
      if |ts| == 0 then Emitted([], None)
      else if !d.proto.Proto? then
        Emitted([ImplsComment(d.proto), "\n" + Attributes(d.pure, d.inline) + "\n"], Some(AttributeError("ret_ty")))
      else
        var rest := ImplsFrom(d, d.proto.p, ts, 0);
        Emitted([ImplsComment(d.proto)] + rest.out, rest.escape)
  }

  /** The entries of a run of implementations that did not fail: each one is
      the header, the body for its type, and the closing brace, in list order. */
  lemma ImplsFromEntries(d: Descriptor, p: Prototype, ts: seq<TypeId>, i: nat)
    requires i <= |ts|
    requires ImplsFrom(d, p, ts, i).escape.None?
    ensures forall k :: i <= k < |ts| ==>
      && ImplBody(d, p, ts[k]).Success?
      && ImplsFrom(d, p, ts, i).out[k - i] == ImplOpen(d, p, ts[k]) + ImplBody(d, p, ts[k]).value + "}\n"
  {
    RunEntriesDone(ImplEntries(d, p, ts), i);
  }

  /** Some type from `i` on has a body that raises. */
  predicate SomeBodyFails(d: Descriptor, p: Prototype, ts: seq<TypeId>, i: nat) {
    exists k :: i <= k < |ts| && ImplBody(d, p, ts[k]).Failure?
  }

  /** An implementation run fails exactly when some type's body fails. */
  lemma ImplsFromFailsIff(d: Descriptor, p: Prototype, ts: seq<TypeId>, i: nat)
    requires i <= |ts|
    ensures ImplsFrom(d, p, ts, i).escape.Some? <==> SomeBodyFails(d, p, ts, i)
  {
    var es := ImplEntries(d, p, ts);
    RunEntriesStops(es, i);
    if SomeBodyFails(d, p, ts, i) {
      var k :| i <= k < |ts| && ImplBody(d, p, ts[k]).Failure?;
      EntryStoppedIff(d, p, ts, k);
    }
    if RunEntries(es, i).escape.Some? {
      var k :| i <= k < |es| && es[k].Stopped?;
      EntryStoppedIff(d, p, ts, k);
    }
  }

  /** An entry stops exactly when its type's body raises. */
  lemma EntryStoppedIff(d: Descriptor, p: Prototype, ts: seq<TypeId>, k: nat)
    requires k < |ts|
    ensures ImplEntries(d, p, ts)[k].Stopped? <==> ImplBody(d, p, ts[k]).Failure?
  {
  }

  /** A failed run stops at the first type whose body fails: it wrote one
      line per type up to that one, the error is that body's, and every
      earlier type's body succeeded. */
  lemma ImplsFromStopsAt(d: Descriptor, p: Prototype, ts: seq<TypeId>, i: nat) returns (j: nat)
    requires i <= |ts| && ImplsFrom(d, p, ts, i).escape.Some?
    ensures j == i + |ImplsFrom(d, p, ts, i).out| - 1 && j < |ts|
    ensures ImplBody(d, p, ts[j]) == Failure(ImplsFrom(d, p, ts, i).escape.value)
    ensures forall k :: i <= k < j ==> ImplBody(d, p, ts[k]).Success?
  {
    var es := ImplEntries(d, p, ts);
    j := RunStopsAt(es, i);
  }
}
