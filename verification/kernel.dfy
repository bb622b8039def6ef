/** Kernels (`clCreateKernel`, `clSetKernelArg`, section 5.7 of the OpenCL
    1.1 specification): the code of one kernel function on each device the
    program was built for, and the arguments set so far. Only buffer
    arguments are supported: a pointer to integers, floats or doubles, or
    to vectors of them. Memory objects are identified by number and carry
    the number of their context. */
module Kernel {
  import opened Results
  import opened ClCodes
  import D = Diagnostics
  import opened IR
  import MD = Metadata

  /** `sizeof(cl_mem)`: a handle is a host pointer, 8 bytes on a 64-bit
      host. */
  const HandleSize: nat := 8

  /** The code of the kernel on one device: the device, the module holding
      the function, and the function. */
  datatype Code = Code(device: nat, mod: IRModule, fn: Function)

  /** A buffer object, as `SetArg` reads it out of the argument value. */
  datatype Buffer = Buffer(id: nat, context: nat)

  /** `BufferKernelArg`: the argument's position, the buffer (`None` for a
      null handle) and the address space the kernel declares for it. */
  datatype Arg = Arg(position: nat, buffer: Option<Buffer>, space: nat)

  /** `Kernel`: the context of its program, the code per device in device
      order, and one slot per parameter (`None` until the argument is
      set). */
  datatype Kernel = Kernel(context: nat, codes: seq<Code>, args: seq<Option<Arg>>)

  /** `BufferKernelArg::OnLocalAddressSpace`. */
  predicate OnLocalAddressSpace(a: Arg) {
    a.space == MD.OpenCLLocal
  }

  /** A kernel as `Program::CreateKernel` makes it: some code, one slot per
      parameter of the first function. */
  predicate Valid(k: Kernel) {
    |k.codes| > 0 && |k.args| == |k.codes[0].fn.ty.params|
  }

  /** The constructor: one empty slot per parameter of the first code's
      function type; every code has the same signature. */
  function New(context: nat, codes: seq<Code>): (k: Kernel)
    requires |codes| > 0
    ensures Valid(k) && k.context == context && k.codes == codes
    ensures forall i :: 0 <= i < |k.args| ==> k.args[i].None?
  {
    Kernel(context, codes, seq(|codes[0].fn.ty.params|, _ => None))
  }

  /** `GetFunction(Dev)` and `GetModule(Dev)`: the code for a device, or
      null when the kernel has none there. */
  function CodeFor(k: Kernel, dev: nat): (r: Option<Code>)
    ensures r.None? <==> forall j :: 0 <= j < |k.codes| ==> k.codes[j].device != dev
    ensures r.Some? ==> r.value in k.codes && r.value.device == dev
  {
    CodeFrom(k.codes, dev, 0)
  }

  function CodeFrom(codes: seq<Code>, dev: nat, i: nat): (r: Option<Code>)
    requires i <= |codes|
    ensures r.None? <==> forall j :: i <= j < |codes| ==> codes[j].device != dev
    ensures r.Some? ==> r.value in codes && r.value.device == dev
    decreases |codes| - i
  {
    if i == |codes| then None
    else if codes[i].device == dev then Some(codes[i])
    else CodeFrom(codes, dev, i + 1)
  }

  /** `Kernel::IsBuffer`: a pointer to an integer, a float or a double, or
      to a vector of one of those. */
  predicate IsBuffer(t: IRType) {
    t.PointerTy? &&
    var scalar := if t.pointee.VectorTy? then t.pointee.elem else t.pointee;
    scalar.IntTy? || scalar.FloatTy? || scalar.DoubleTy?
  }

  /** The outcome of setting an argument: the kernel afterwards, the status
      code and the diagnostics reported to the context. */
  datatype SetResult = SetResult(kernel: Kernel, code: int, diagnostics: seq<D.Diagnostic>)

  /** The address space argument `i` is declared in, read from the
      metadata of the first code's module. */
  function ArgSpace(k: Kernel, i: nat): nat
    requires |k.codes| > 0
  {
    MD.GetArgAddressSpace(k.codes[0].mod, k.codes[0].fn.name, i)
  }

  /** `SetBufferArg`: the size must be that of a handle; a non-null buffer
      must belong to the kernel's context and may not be bound to a local
      pointer. On success slot `i` records the buffer and the address
      space. */
  function SetBufferArg(k: Kernel, i: nat, size: nat, buf: Option<Buffer>): (r: SetResult)
    requires Valid(k) && i < |k.args|
    ensures r.code == CL_SUCCESS <==>
      size == HandleSize && (buf.Some? ==> buf.value.context == k.context && ArgSpace(k, i) != MD.OpenCLLocal)
    ensures r.code == CL_SUCCESS ==> r.diagnostics == [] && r.kernel == k.(args := k.args[i := Some(Arg(i, buf, ArgSpace(k, i)))])
    ensures r.code != CL_SUCCESS ==> r.kernel == k && |r.diagnostics| == 1
    ensures size != HandleSize ==> r.code == CL_INVALID_ARG_SIZE
    ensures size == HandleSize && buf.Some? && buf.value.context != k.context ==> r.code == CL_INVALID_MEM_OBJECT
    ensures size == HandleSize && buf.Some? && buf.value.context == k.context && ArgSpace(k, i) == MD.OpenCLLocal ==>
      r.code == CL_INVALID_ARG_VALUE
  {
    if size != HandleSize then SetResult(k, CL_INVALID_ARG_SIZE, [D.ArgSizeMismatch])
    else
      var space := ArgSpace(k, i);
      if buf.Some? && buf.value.context != k.context then
        SetResult(k, CL_INVALID_MEM_OBJECT, [D.ArgContextMismatch])
      else if buf.Some? && space == MD.OpenCLLocal then
        SetResult(k, CL_INVALID_ARG_VALUE, [D.LocalPointerArg])
      else SetResult(k.(args := k.args[i := Some(Arg(i, buf, space))]), CL_SUCCESS, [])
  }

  /** `SetArg`: an index past the parameters is refused; a parameter that
      is not a buffer reaches `llvm_unreachable` (a failure here). */
  function SetArg(k: Kernel, i: nat, size: nat, buf: Option<Buffer>): (r: Result<SetResult, string>)
    requires Valid(k)
    ensures r.Failure? <==> i < |k.args| && !IsBuffer(k.codes[0].fn.ty.params[i])
    ensures i >= |k.args| ==> r == Success(SetResult(k, CL_INVALID_ARG_INDEX, [D.ArgIndexTooLarge]))
    ensures r.Success? && i < |k.args| ==> r.value == SetBufferArg(k, i, size, buf)
  {
    if i >= |k.args| then Success(SetResult(k, CL_INVALID_ARG_INDEX, [D.ArgIndexTooLarge]))
    else if IsBuffer(k.codes[0].fn.ty.params[i]) then Success(SetBufferArg(k, i, size, buf))
    else Failure("Unknown argument type")
  }

  /** No recorded argument binds a buffer to a local pointer. */
  predicate LocalSlotsNull(k: Kernel) {
    forall j :: 0 <= j < |k.args| && k.args[j].Some? && OnLocalAddressSpace(k.args[j].value) ==> k.args[j].value.buffer.None?
  }

  /** Every recorded argument sits at its own position and belongs to the
      kernel's context. */
  predicate SlotsWellFormed(k: Kernel) {
    forall j :: 0 <= j < |k.args| && k.args[j].Some? ==>
      k.args[j].value.position == j && (k.args[j].value.buffer.Some? ==> k.args[j].value.buffer.value.context == k.context)
  }

  /** Setting an argument keeps both slot invariants, keeps the kernel
      valid, and touches no other slot. */
  lemma SetArgKeepsSlots(k: Kernel, i: nat, size: nat, buf: Option<Buffer>)
    requires Valid(k) && LocalSlotsNull(k) && SlotsWellFormed(k)
    requires SetArg(k, i, size, buf).Success?
    ensures var k' := SetArg(k, i, size, buf).value.kernel;
      && Valid(k') && LocalSlotsNull(k') && SlotsWellFormed(k')
      && k'.codes == k.codes && k'.context == k.context
      && forall j :: 0 <= j < |k.args| && j != i ==> k'.args[j] == k.args[j]
  {
  }

  /** Setting the same argument twice is the same as setting it once. */
  lemma SetArgIdempotent(k: Kernel, i: nat, size: nat, buf: Option<Buffer>)
    requires Valid(k) && SetArg(k, i, size, buf).Success?
    ensures var r := SetArg(k, i, size, buf).value;
      Valid(r.kernel) && SetArg(r.kernel, i, size, buf) == Success(SetResult(r.kernel, r.code, r.diagnostics))
  {
    var r := SetArg(k, i, size, buf).value;
    if i < |k.args| {
      assert ArgSpace(r.kernel, i) == ArgSpace(k, i);
      var a := Some(Arg(i, buf, ArgSpace(k, i)));
      assert k.args[i := a][i := a] == k.args[i := a];
    }
  }

  /** Arguments at different positions can be set in either order. */
  lemma SetArgsCommute(k: Kernel, i: nat, j: nat, bi: Option<Buffer>, bj: Option<Buffer>)
    requires Valid(k) && i != j && i < |k.args| && j < |k.args|
    requires SetArg(k, i, HandleSize, bi) == Success(SetResult(k.(args := k.args[i := Some(Arg(i, bi, ArgSpace(k, i)))]), CL_SUCCESS, []))
    requires SetArg(k, j, HandleSize, bj) == Success(SetResult(k.(args := k.args[j := Some(Arg(j, bj, ArgSpace(k, j)))]), CL_SUCCESS, []))
    ensures var ki := SetArg(k, i, HandleSize, bi).value.kernel;
      var kj := SetArg(k, j, HandleSize, bj).value.kernel;
      && SetArg(ki, j, HandleSize, bj).Success? && SetArg(kj, i, HandleSize, bi).Success?
      && SetArg(ki, j, HandleSize, bj).value.kernel == SetArg(kj, i, HandleSize, bi).value.kernel
  {
    var ki := SetArg(k, i, HandleSize, bi).value.kernel;
    var kj := SetArg(k, j, HandleSize, bj).value.kernel;
    assert ArgSpace(ki, j) == ArgSpace(k, j) && ArgSpace(kj, i) == ArgSpace(k, i);
    assert k.args[i := Some(Arg(i, bi, ArgSpace(k, i)))][j := Some(Arg(j, bj, ArgSpace(k, j)))]
        == k.args[j := Some(Arg(j, bj, ArgSpace(k, j)))][i := Some(Arg(i, bi, ArgSpace(k, i)))];
  }

  /** The address space recorded for an argument is the constant the
      kernel's first address-space description lists for it; with no
      description the argument is recorded with `LangAS::Last`, which is
      not local, so any buffer of the context is accepted. */
  lemma RecordedSpaceFromMetadata(k: Kernel, i: nat, buf: Option<Buffer>)
    requires Valid(k) && i < |k.args| && IsBuffer(k.codes[0].fn.ty.params[i])
    requires buf.Some? ==> buf.value.context == k.context
    ensures var m := k.codes[0].mod;
      var ops := if m.kernels.Some? then MD.AddrSpacesFrom(m.kernels.value, k.codes[0].fn.name, 0) else None;
      var r := SetArg(k, i, HandleSize, buf).value;
      ops.Some? && i < |ops.value| && ops.value[i] == ConstInt(MD.OpenCLLocal) && buf.Some? ==> r.code == CL_INVALID_ARG_VALUE
    ensures var m := k.codes[0].mod;
      var ops := if m.kernels.Some? then MD.AddrSpacesFrom(m.kernels.value, k.codes[0].fn.name, 0) else None;
      var r := SetArg(k, i, HandleSize, buf).value;
      (ops.None? || i >= |ops.value| || !ops.value[i].ConstInt?) ==>
        r.code == CL_SUCCESS && r.kernel.args[i] == Some(Arg(i, buf, MD.LangASLast))
  {
  }
}
