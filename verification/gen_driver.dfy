/** `gentype_func`, the per-definition error scope of the generator, and a
    run over a sequence of definitions. A definition parses its prototype,
    executes the assignments of its `with` block, then writes declarations
    to the declaration sink and implementations to the implementation sink,
    each only when that sink was configured. Only `DSLException` is caught:
    it is printed and the definition writes nothing more. Any other error
    escapes and ends the run. */
module GenDriver {
  import opened Results
  import opened Text
  import opened GenTypes
  import opened GenParser
  import opened GenErrors
  import opened GenFunction
  import opened GenEmit

  /** One statement of a `with gentype_func(...) as f:` block: `f.attr = value`. */
  datatype Assign = Assign(attr: string, value: Value)

  datatype Definition = Definition(proto: string, body: seq<Assign>)

  /** The two output files; `None` when the option was not given. */
  datatype Sinks = Sinks(decl: Option<seq<string>>, impl: Option<seq<string>>)

  /** The sinks after a run, the lines printed, and the error that escaped, if any. */
  datatype Outcome = Outcome(sinks: Sinks, printed: seq<string>, escape: Option<Escape>)

  /** The assignments in order; the first one that raises ends the block. */
  function RunBody(d: Descriptor, body: seq<Assign>): (r: Assigned)
    ensures |body| == 0 ==> r == Assigned(d)
    ensures r.Caught? || r.Escaped? ==> |body| > 0
    decreases |body|
  {
    if |body| == 0 then Assigned(d)
    else match SetAttr(d, body[0].attr, body[0].value)
      case Assigned(d1) => RunBody(d1, body[1..])
      case Caught(e) => Caught(e)
      case Escaped(x) => Escaped(x)
  }

  function Append(sink: Option<seq<string>>, out: seq<string>): Option<seq<string>> {
    match sink
    case None => None
    case Some(s) => Some(s + out)
  }

  /** The emission after the block: declarations first, and implementations
      only if the declarations did not raise. */
  function Emit(sinks: Sinks, d: Descriptor): (r: (Sinks, Option<Escape>))
    ensures sinks.decl.None? && sinks.impl.None? ==> r == (sinks, None)
    ensures sinks.decl.Some? && EmitDecls(d).escape.Some? ==>
      r == (sinks.(decl := Append(sinks.decl, EmitDecls(d).out)), EmitDecls(d).escape)
  {
    var s1 := if sinks.decl.Some? then Emitted(EmitDecls(d).out, EmitDecls(d).escape) else Emitted([], None);
    var afterDecl := sinks.(decl := Append(sinks.decl, s1.out));
    if s1.escape.Some? then (afterDecl, s1.escape)
    else if sinks.impl.Some? then
      var s2 := EmitImpls(d);
      (afterDecl.(impl := Append(sinks.impl, s2.out)), s2.escape)
    else (afterDecl, None)
  }

  /** One `with gentype_func(proto) as f:` block. A prototype that fails to
      parse is printed before the block runs, and since the generator then
      never yields, `RuntimeError` escapes. */
  function RunDefinition(sinks: Sinks, def: Definition): (r: Outcome)
    ensures NewDescriptor(def.proto).Failure? ==>
      r == Outcome(sinks, [Message(NewDescriptor(def.proto).error)], Some(RuntimeError))
    ensures |r.printed| <= 1
  {
    match NewDescriptor(def.proto)
    case Failure(e) => Outcome(sinks, [Message(e)], Some(RuntimeError))
    case Success(d) =>
      match RunBody(d, def.body)
      case Caught(e) => Outcome(sinks, [Message(e)], None)
      case Escaped(x) => Outcome(sinks, [], Some(x))
      case Assigned(d1) =>
        var (s, x) := Emit(sinks, d1);
        Outcome(s, [], x)
  }

  /** What follows a definition's outcome: nothing after an escape,
      otherwise the remaining definitions on the sinks it left. */
  function Continue(o: Outcome, defs: seq<Definition>): Outcome
    decreases |defs|, 2
  {
    if o.escape.Some? then o
    else
      var rest := Run(o.sinks, defs);
      Outcome(rest.sinks, o.printed + rest.printed, rest.escape)
  }

  /** The definitions in order; the first error that escapes ends the run. */
  function Run(sinks: Sinks, defs: seq<Definition>): Outcome
    decreases |defs|, 1
  {
    if |defs| == 0 then Outcome(sinks, [], None)
    else Continue(RunDefinition(sinks, defs[0]), defs[1..])
  }

  /** `later` holds what `earlier` held, possibly with more appended, and a
      sink that was not configured stays absent. */
  predicate Extends(earlier: Sinks, later: Sinks) {
    && (earlier.decl.None? <==> later.decl.None?)
    && (earlier.impl.None? <==> later.impl.None?)
    && (earlier.decl.Some? ==> earlier.decl.value <= later.decl.value)
    && (earlier.impl.Some? ==> earlier.impl.value <= later.impl.value)
  }

  lemma ExtendsTransitive(a: Sinks, b: Sinks, c: Sinks)
    requires Extends(a, b) && Extends(b, c)
    ensures Extends(a, c)
  {
  }

  /** A definition only appends to the sinks, whatever happens in it. */
  lemma RunDefinitionAppends(sinks: Sinks, def: Definition)
    ensures Extends(sinks, RunDefinition(sinks, def).sinks)
  {
    if NewDescriptor(def.proto).Success? {
      var d := NewDescriptor(def.proto).value;
      if RunBody(d, def.body).Assigned? {
        EmitAppends(sinks, RunBody(d, def.body).d);
      }
    }
  }

  /** The emission only appends to the sinks. */
  lemma EmitAppends(sinks: Sinks, d: Descriptor)
    ensures Extends(sinks, Emit(sinks, d).0)
  {
    var s1 := if sinks.decl.Some? then Emitted(EmitDecls(d).out, EmitDecls(d).escape) else Emitted([], None);
    var afterDecl := sinks.(decl := Append(sinks.decl, s1.out));
    AppendExtends(sinks.decl, s1.out);
    if sinks.impl.Some? {
      AppendExtends(sinks.impl, EmitImpls(d).out);
    }
  }

  lemma AppendExtends(sink: Option<seq<string>>, out: seq<string>)
    ensures Append(sink, out).None? <==> sink.None?
    ensures sink.Some? ==> sink.value <= Append(sink, out).value
  {
  }

  /** A whole run only appends to the sinks. */
  lemma {:induction false} RunAppends(sinks: Sinks, defs: seq<Definition>)
    ensures Extends(sinks, Run(sinks, defs).sinks)
    decreases |defs|
  {
    if |defs| > 0 {
      var o := RunDefinition(sinks, defs[0]);
      RunDefinitionAppends(sinks, defs[0]);
      if o.escape.None? {
        RunAppends(o.sinks, defs[1..]);
        ExtendsTransitive(sinks, o.sinks, Run(o.sinks, defs[1..]).sinks);
      }
    }
  }

  /** A `DSLException` raised in the block is printed once, nothing is
      written, and nothing escapes. */
  lemma CaughtWritesNothing(sinks: Sinks, def: Definition, d: Descriptor)
    requires NewDescriptor(def.proto) == Success(d)
    requires RunBody(d, def.body).Caught?
    ensures RunDefinition(sinks, def) == Outcome(sinks, [Message(RunBody(d, def.body).e)], None)
  {
  }

  /** Assigning a property outside the allow-list is such an exception, with
      the message "Unknown property: " followed by the name. */
  lemma UnknownPropertyReported(sinks: Sinks, proto: string, d: Descriptor, attr: string, v: Value)
    requires NewDescriptor(proto) == Success(d)
    requires attr !in AllowedAttrs
    ensures RunDefinition(sinks, Definition(proto, [Assign(attr, v)])) == Outcome(sinks, ["Unknown property: " + attr], None)
  {
  }

  /** A caught error does not stop the run: the next definitions run on the same sinks. */
  lemma CaughtThenContinues(sinks: Sinks, def: Definition, rest: seq<Definition>, d: Descriptor)
    requires NewDescriptor(def.proto) == Success(d)
    requires RunBody(d, def.body).Caught?
    ensures Run(sinks, [def] + rest) ==
      var r := Run(sinks, rest);
      Outcome(r.sinks, [Message(RunBody(d, def.body).e)] + r.printed, r.escape)
  {
    assert ([def] + rest)[1..] == rest;
    CaughtWritesNothing(sinks, def, d);
  }

  /** Running two lists of definitions is running the first, then, unless
      an error escaped, the second on the sinks the first left. */
  lemma {:induction false} RunConcat(sinks: Sinks, a: seq<Definition>, b: seq<Definition>)
    ensures Run(sinks, a + b) == Continue(Run(sinks, a), b)
    decreases |a|
  {
    if |a| == 0 {
      assert a + b == b;
      assert Run(sinks, a).printed + Run(sinks, b).printed == Run(sinks, b).printed;
    } else {
      assert (a + b)[0] == a[0];
      assert (a + b)[1..] == a[1..] + b;
      var o := RunDefinition(sinks, a[0]);
      if o.escape.None? {
        RunConcat(o.sinks, a[1..], b);
        ContinueAssociates(o, Run(o.sinks, a[1..]), b);
      }
    }
  }

  lemma ContinueAssociates(o: Outcome, ra: Outcome, b: seq<Definition>)
    requires o.escape.None?
    ensures Continue(Outcome(ra.sinks, o.printed + ra.printed, ra.escape), b)
         == Outcome(Continue(ra, b).sinks, o.printed + Continue(ra, b).printed, Continue(ra, b).escape)
  {
    if ra.escape.None? {
      var rb := Run(ra.sinks, b);
      assert (o.printed + ra.printed) + rb.printed == o.printed + (ra.printed + rb.printed);
    }
  }

  /** Once an error escapes, the definitions after it contribute nothing. */
  lemma EscapeEndsRun(sinks: Sinks, a: seq<Definition>, b: seq<Definition>)
    requires Run(sinks, a).escape.Some?
    ensures Run(sinks, a + b) == Run(sinks, a)
  {
    RunConcat(sinks, a, b);
  }

  /** Without any sink configured nothing is emitted, so only the prototype
      or the block can raise. */
  lemma NoSinksNoEmissionError(def: Definition, d: Descriptor)
    requires NewDescriptor(def.proto) == Success(d)
    requires RunBody(d, def.body).Assigned?
    ensures RunDefinition(Sinks(None, None), def) == Outcome(Sinks(None, None), [], None)
  {
  }

  /** The declaration sink of a completed definition grows by the comment
      and one entry per type, or by nothing when the type list is empty. */
  lemma DeclarationsPerDefinition(sinks: Sinks, def: Definition, d: Descriptor, d1: Descriptor, ts: seq<TypeId>)
    requires sinks.decl.Some?
    requires NewDescriptor(def.proto) == Success(d)
    requires RunBody(d, def.body) == Assigned(d1)
    requires d1.types == Some(ts) && d1.proto.Proto?
    ensures var r := RunDefinition(sinks, def);
      && r.sinks.decl.Some?
      && |r.sinks.decl.value| == |sinks.decl.value| + (if |ts| == 0 then 0 else 1 + |ts|)
      && (|ts| > 0 ==> r.sinks.decl.value[|sinks.decl.value|] == DeclsComment(d1.proto))
  {
  }

  /** A `types` list that was never assigned raises `AttributeError` at the
      first configured sink; with a declaration sink, the implementation
      sink is left as it was. */
  lemma UnsetTypesEscape(sinks: Sinks, def: Definition, d: Descriptor, d1: Descriptor)
    requires sinks.decl.Some?
    requires NewDescriptor(def.proto) == Success(d)
    requires RunBody(d, def.body) == Assigned(d1)
    requires d1.types.None?
    ensures RunDefinition(sinks, def) == Outcome(sinks, [], Some(AttributeError("types")))
  {
    assert EmitDecls(d1) == Emitted([], Some(AttributeError("types")));
    assert sinks.decl.value + [] == sinks.decl.value;
    assert Append(sinks.decl, []) == sinks.decl;
  }
}
