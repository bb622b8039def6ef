/** `OpenCLMetadataHandler`: queries over the `opencl.kernels` metadata of
    a module, and the builder that declares runtime builtins from their
    signature strings. Each node of `opencl.kernels` describes a kernel:
    operand 0 is the kernel function and operand 1, when present, is a
    node holding the address space of each argument. */
module Metadata {
  import opened Results
  import opened IR

  // ---------------------------------------------------------------------
  // Address spaces: the numbering of clang's `LangAS::ID`.

  const OpenCLGlobal: nat := 0xFFFF00
  const OpenCLLocal: nat := 0xFFFF01
  const OpenCLConstant: nat := 0xFFFF02
  /** `LangAS::Last`, used for "no address space". */
  const LangASLast: nat := 0xFFFF03

  // ---------------------------------------------------------------------
  // Kernel lookup.

  /** Operand 0 of a kernel node refers to the named function. */
  predicate NamesKernel(node: seq<MD>, name: string) {
    |node| > 0 && node[0] == FuncRef(name)
  }

  /** Some node of `opencl.kernels` describes the named function. */
  predicate ListedAsKernel(m: IRModule, name: string) {
    m.kernels.Some? && exists k :: 0 <= k < |m.kernels.value| && NamesKernel(m.kernels.value[k], name)
  }

  /** The scan of `GetKernel` over the kernel nodes from `i` on. */
  function AnyNamesFrom(nodes: seq<seq<MD>>, name: string, i: nat): (found: bool)
    requires i <= |nodes|
    ensures found <==> exists k :: i <= k < |nodes| && NamesKernel(nodes[k], name)
    decreases |nodes| - i
  {
    if i == |nodes| then false
    else NamesKernel(nodes[i], name) || AnyNamesFrom(nodes, name, i + 1)
  }

  /** `GetKernel`: the function with that name, provided a node of
      `opencl.kernels` refers to it; null otherwise, and null when the
      module has no such metadata. */
  function GetKernel(m: IRModule, name: string): (r: Option<Function>)
    ensures r.Some? <==> name in Names(m) && ListedAsKernel(m, name)
    ensures r.Some? ==> r == GetFunction(m, name)
  {
    match GetFunction(m, name)
    case None => None
    case Some(f) =>
      if m.kernels.None? then None
      else if AnyNamesFrom(m.kernels.value, name, 0) then Some(f)
      else None
  }

  /** The functions the kernel iterator visits, in the order of the
      metadata nodes: operand 0 of each node. */
  function KernelFunctions(m: IRModule): (r: seq<string>)
    ensures forall n :: n in r <==> n in Names(m) && ListedAsKernel(m, n)
  {
    if m.kernels.None? then [] else KernelsFrom(m, m.kernels.value, 0)
  }

  function KernelsFrom(m: IRModule, nodes: seq<seq<MD>>, i: nat): (r: seq<string>)
    requires i <= |nodes|
    ensures forall n :: n in r <==> n in Names(m) && exists k :: i <= k < |nodes| && NamesKernel(nodes[k], n)
    decreases |nodes| - i
  {
    if i == |nodes| then []
    else
      var rest := KernelsFrom(m, nodes, i + 1);
      if |nodes[i]| > 0 && nodes[i][0].FuncRef? && nodes[i][0].name in Names(m) then [nodes[i][0].name] + rest
      else rest
  }

  /** The roots the module passes start from: the named kernel when a
      name is given and it is a kernel, otherwise every kernel the kernel
      iterator visits. */
  function SelectKernels(m: IRModule, kernel: string): (r: seq<string>)
    ensures kernel != "" && GetKernel(m, kernel).Some? ==> r == [kernel]
    ensures (kernel == "" || GetKernel(m, kernel).None?) ==> r == KernelFunctions(m)
    ensures forall n :: n in r ==> n in Names(m) && ListedAsKernel(m, n)
  {
    if kernel != "" && GetKernel(m, kernel).Some? then [kernel] else KernelFunctions(m)
  }

  /** The address-space node `GetArgAddressSpace` settles on: the first
      node with at least two operands whose operand 0 is the kernel
      decides, and its operand 1 counts only when it is a node. */
  function AddrSpacesFrom(nodes: seq<seq<MD>>, kern: string, i: nat): (r: Option<seq<MD>>)
    requires i <= |nodes|
    ensures r.Some? ==> exists k :: i <= k < |nodes| && |nodes[k]| >= 2 && nodes[k][0] == FuncRef(kern) && nodes[k][1] == Node(r.value)
    ensures (forall k :: i <= k < |nodes| && |nodes[k]| >= 2 ==> nodes[k][0] != FuncRef(kern)) ==> r.None?
    decreases |nodes| - i
  {
    if i == |nodes| then None
    else if |nodes[i]| < 2 then AddrSpacesFrom(nodes, kern, i + 1)
    else if nodes[i][0] == FuncRef(kern) then
      if nodes[i][1].Node? then Some(nodes[i][1].ops) else None
    else AddrSpacesFrom(nodes, kern, i + 1)
  }

  /** `GetArgAddressSpace`: the constant the kernel's address-space node
      holds for argument `i`; `LangAS::Last` when the metadata, the node
      or the entry is missing, or the entry is not a constant. */
  function GetArgAddressSpace(m: IRModule, kern: string, i: nat): (r: nat)
    ensures m.kernels.None? ==> r == LangASLast
    ensures m.kernels.Some? && (forall k :: 0 <= k < |m.kernels.value| && |m.kernels.value[k]| >= 2 ==> m.kernels.value[k][0] != FuncRef(kern)) ==>
      r == LangASLast
    ensures r != LangASLast ==>
      var ops := AddrSpacesFrom(m.kernels.value, kern, 0);
      ops.Some? && i < |ops.value| && ops.value[i] == ConstInt(r)
    ensures m.kernels.Some? ==>
      var ops := AddrSpacesFrom(m.kernels.value, kern, 0);
      ops.Some? && i < |ops.value| && ops.value[i].ConstInt? ==> r == ops.value[i].v
    ensures m.kernels.Some? ==>
      var ops := AddrSpacesFrom(m.kernels.value, kern, 0);
      ops.None? || i >= |ops.value| || !ops.value[i].ConstInt? ==> r == LangASLast
  {
    if m.kernels.None? then LangASLast
    else
      match AddrSpacesFrom(m.kernels.value, kern, 0)
      case None => LangASLast
      case Some(ops) =>
        if |ops| < i + 1 then LangASLast
        else if ops[i].ConstInt? then ops[i].v
        else LangASLast
  }

  /** The first kernel node with two operands decides, even when a later
      one for the same kernel would have given an address space. */
  lemma FirstDescriptionDecides(kern: string, spaces: seq<MD>, later: seq<MD>, i: nat)
    requires i < |later|
    ensures var m := IRModule([], Some([[FuncRef(kern), OtherMD], [FuncRef(kern), Node(later)]]));
      GetArgAddressSpace(m, kern, i) == LangASLast
  {
  }

  // ---------------------------------------------------------------------
  // Builtin signatures.

  /** The types a builtin signature can name. */
  datatype SigType = UIntSig | ULongSig | SizeTSig | VoidSig

  /** The widths the target gives to `unsigned int`, `unsigned long` and
      `size_t`. */
  datatype TargetWidths = TargetWidths(uintBits: nat, ulongBits: nat, sizeBits: nat)

  function ToIRType(t: SigType, w: TargetWidths): IRType {
    match t
    case UIntSig => IntTy(w.uintBits)
    case ULongSig => IntTy(w.ulongBits)
    case SizeTSig => IntTy(w.sizeBits)
    case VoidSig => VoidTy
  }

  /** The character at `i`, or the terminating NUL past the end:
      signatures are C string literals. */
  function At(s: string, i: nat): char {
    if i < |s| then s[i] else '\0'
  }

  /** `SignatureBuilder::SetTypeDone` after one scanned type: the prefixes
      seen and the type letter. An integer needs the unsigned prefix; the
      prefixes mean nothing to `z` and `v`. */
  function TypeDone(unsigned: bool, long: bool, letter: char): (r: Result<SigType, string>)
    ensures r.Success? <==> letter == 'z' || letter == 'v' || (letter == 'i' && unsigned)
    ensures r == Success(UIntSig) <==> letter == 'i' && unsigned && !long
    ensures r == Success(ULongSig) <==> letter == 'i' && unsigned && long
    ensures r == Success(SizeTSig) <==> letter == 'z'
    ensures r == Success(VoidSig) <==> letter == 'v'
    ensures r.Failure? && letter != 'i' ==> r.error == "Unknown type"
    ensures r.Failure? && letter == 'i' ==> r.error == "Type not specified"
  {
    if letter == 'i' then
      if unsigned && !long then Success(UIntSig)
      else if unsigned && long then Success(ULongSig)
      else Failure("Type not specified")
    else if letter == 'z' then Success(SizeTSig)
    else if letter == 'v' then Success(VoidSig)
    else Failure("Unknown type")
  }

  /** One type of a signature starting at `i`: an optional `U`, an
      optional `L`, then the type letter; the position after it. */
  function ScanType(s: string, i: nat): (r: Result<(SigType, nat), string>)
    ensures r.Success? ==> i < r.value.1 <= |s| && r.value.1 <= i + 3
  {
    var unsigned := At(s, i) == 'U';
    var j := if unsigned then i + 1 else i;
    var long := At(s, j) == 'L';
    var k := if long then j + 1 else j;
    var t :- TypeDone(unsigned, long, At(s, k));
    Success((t, k + 1))
  }

  /** The scanning loop of `BuildBuiltin` from `i` on. Reaching an
      unknown letter or an integer without the unsigned prefix is
      `llvm_unreachable`, a failure here. */
  function ScanFrom(s: string, i: nat): (r: Result<seq<SigType>, string>)
    requires i <= |s|
    decreases |s| - i
  {
    if i == |s| then Success([])
    else
      match ScanType(s, i)
      case Failure(e) => Failure(e)
      case Success(step) =>
        match ScanFrom(s, step.1)
        case Failure(e) => Failure(e)
        case Success(rest) => Success([step.0] + rest)
  }

  /** The canonical spelling of a type. */
  function Code(t: SigType): (r: string)
    ensures |r| > 0
  {
    match t
    case UIntSig => "Ui"
    case ULongSig => "ULi"
    case SizeTSig => "z"
    case VoidSig => "v"
  }

  /** The canonical spelling of a signature. */
  function Render(ts: seq<SigType>): string {
    if |ts| == 0 then "" else Code(ts[0]) + Render(ts[1..])
  }

  lemma ScanCode(pre: string, t: SigType, post: string)
    ensures ScanType(pre + Code(t) + post, |pre|) == Success((t, |pre| + |Code(t)|))
  {
    var s := pre + Code(t) + post;
    assert forall k :: 0 <= k < |Code(t)| ==> s[|pre| + k] == Code(t)[k];
  }

  lemma {:induction false} ScanRender(pre: string, ts: seq<SigType>)
    ensures ScanFrom(pre + Render(ts), |pre|) == Success(ts)
    decreases |ts|
  {
    var s := pre + Render(ts);
    if |ts| > 0 {
      var pre' := pre + Code(ts[0]);
      assert s == pre' + Render(ts[1..]);
      ScanCode(pre, ts[0], Render(ts[1..]));
      assert ScanType(s, |pre|) == Success((ts[0], |pre'|));
      ScanRender(pre', ts[1..]);
      assert ScanFrom(s, |pre'|) == Success(ts[1..]);
      assert [ts[0]] + ts[1..] == ts;
    } else {
      assert |s| == |pre|;
    }
  }

  /** Every signature spelt canonically scans back to its types. */
  lemma ScanRoundTrip(ts: seq<SigType>)
    ensures ScanFrom(Render(ts), 0) == Success(ts)
  {
    ScanRender("", ts);
    assert "" + Render(ts) == Render(ts);
  }

  /** Prefixes mean nothing before `z` and `v`, so spellings other than
      the canonical one are accepted too, and a signed integer is not. */
  lemma OtherSpellings()
    ensures ScanFrom("ULz", 0) == Success([SizeTSig])
    ensures ScanFrom("Uv", 0) == Success([VoidSig])
    ensures ScanFrom("i", 0) == Failure("Type not specified")
    ensures ScanFrom("U", 0) == Failure("Unknown type")
  {
    ScanTwoSteps("ULz", SizeTSig);
    ScanTwoSteps("Uv", VoidSig);
    assert ScanType("i", 0) == Failure("Type not specified");
    assert ScanType("U", 0) == Failure("Unknown type");
  }

  /** A signature made of a single type. */
  lemma ScanTwoSteps(s: string, t: SigType)
    requires ScanType(s, 0) == Success((t, |s|))
    ensures ScanFrom(s, 0) == Success([t])
  {
    assert 0 < |s|;
    assert ScanFrom(s, |s|) == Success([]);
    assert [t] + [] == [t];
  }

  /** `SignatureBuilder::CreateFunction`: the first type is the return
      type and the others the parameters, in order; the function is an
      external declaration. No type at all is `llvm_unreachable`. */
  function CreateFunction(name: string, ts: seq<SigType>, w: TargetWidths): (r: Result<Function, string>)
    ensures r.Failure? <==> |ts| == 0
    ensures r.Success? ==>
      && r.value.name == name && r.value.external && r.value.declaration && r.value.body == []
      && r.value.ty.ret == ToIRType(ts[0], w)
      && |r.value.ty.params| == |ts| - 1
      && forall k :: 0 <= k < |ts| - 1 ==> r.value.ty.params[k] == ToIRType(ts[k + 1], w)
  {
    if |ts| < 1 then Failure("Not enough arguments")
    else Success(Function(name, FunctionType(ToIRType(ts[0], w), seq(|ts| - 1, k requires 0 <= k < |ts| - 1 => ToIRType(ts[k + 1], w))), true, true, []))
  }

  /** The module with a builtin added, and the builtin. */
  datatype Builtin = Builtin(mod: IRModule, fn: Function)

  /** `BuildBuiltin`: scan the signature and declare the function in the
      module. */
  function BuildBuiltin(m: IRModule, name: string, sig: string, w: TargetWidths): (r: Result<Builtin, string>)
    ensures r.Success? <==> ScanFrom(sig, 0).Success? && |ScanFrom(sig, 0).value| > 0
    ensures r.Success? ==>
      && r.value.mod == m.(functions := m.functions + [r.value.fn])
      && Success(r.value.fn) == CreateFunction(name, ScanFrom(sig, 0).value, w)
  {
    var ts :- ScanFrom(sig, 0);
    var f :- CreateFunction(name, ts, w);
    Success(Builtin(m.(functions := m.functions + [f]), f))
  }

  /** `GetBuiltin`: a name missing from the builtin table is
      `llvm_unreachable`; a declaration already in the module is reused
      (its signature is not checked); otherwise one is built from the
      table's signature. */
  function GetBuiltin(m: IRModule, table: map<string, string>, name: string, w: TargetWidths): (r: Result<Builtin, string>)
    ensures name !in table ==> r == Failure("Unknown builtin: " + name)
    ensures name in table && name in Names(m) ==> r == Success(Builtin(m, GetFunction(m, name).value))
    ensures name in table && name !in Names(m) ==> r == BuildBuiltin(m, name, table[name], w)
    ensures r.Success? ==> r.value.fn.name == name && r.value.fn in r.value.mod.functions
  {
    if name !in table then Failure("Unknown builtin: " + name)
    else match GetFunction(m, name)
      case Some(f) => Success(Builtin(m, f))
      case None => BuildBuiltin(m, name, table[name], w)
  }

  /** Asking twice for a builtin gives the same declaration, and the
      second request leaves the module alone. */
  lemma GetBuiltinIdempotent(m: IRModule, table: map<string, string>, name: string, w: TargetWidths)
    requires GetBuiltin(m, table, name, w).Success?
    ensures var b := GetBuiltin(m, table, name, w).value;
      GetBuiltin(b.mod, table, name, w) == Success(b)
  {
    var b := GetBuiltin(m, table, name, w).value;
    if name !in Names(m) {
      assert b.mod.functions[|m.functions|] == b.fn;
      assert forall k :: 0 <= k < |m.functions| ==> b.mod.functions[k].name != name;
      assert GetFunction(b.mod, name) == FindFrom(b.mod.functions, name, |m.functions|);
    }
  }
}
