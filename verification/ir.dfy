/** The part of an LLVM module the runtime's passes and metadata queries
    look at: types, function signatures, the instructions of function
    bodies, and the `opencl.kernels` named metadata. Functions are
    identified by name, which is unique within a module. */
module IR {
  import opened Results

  /** LLVM types. The floating-point and MMX types carry no parameters;
      an integer type carries its bit width. */
  datatype IRType =
    | VoidTy | LabelTy | MetadataTy
    | FloatTy | DoubleTy | X86FP80Ty | FP128Ty | PPCFP128Ty | X86MMXTy
    | IntTy(bits: nat)
    | StructTy(fields: seq<IRType>, isOpaque: bool)
    | ArrayTy(elem: IRType, count: nat)
    | VectorTy(elem: IRType, count: nat)
    | PointerTy(pointee: IRType, space: nat)
    | FunctionTy(sig: FunctionType)

  /** A function type: the return type and the parameter types. */
  datatype FunctionType = FunctionType(ret: IRType, params: seq<IRType>)

  /** The non-derived types LLVM calls primitive that have a size. */
  predicate SizedPrimitive(t: IRType) {
    t.FloatTy? || t.DoubleTy? || t.X86FP80Ty? || t.FP128Ty? || t.PPCFP128Ty? || t.X86MMXTy?
  }

  /** The width in bits of a sized primitive type. */
  function PrimitiveBits(t: IRType): (bits: nat)
    requires SizedPrimitive(t)
    ensures bits % 8 == 0 && bits >= 32
  {
    match t
    case FloatTy => 32
    case DoubleTy => 64
    case X86FP80Ty => 80
    case FP128Ty => 128
    case PPCFP128Ty => 128
    case X86MMXTy => 64
  }

  /** LLVM's `Type::isSized`: primitives with a width, integers and
      pointers are sized; an aggregate is sized when its elements are and
      a struct is not opaque; void, labels, metadata and functions are
      not. */
  predicate Sized(t: IRType)
    decreases t
  {
    match t
    case StructTy(fields, isOpaque) => !isOpaque && FieldsSized(fields)
    case ArrayTy(elem, _) => Sized(elem)
    case VectorTy(elem, _) => Sized(elem)
    case IntTy(_) => true
    case PointerTy(_, _) => true
    case _ => SizedPrimitive(t)
  }

  predicate FieldsSized(fields: seq<IRType>)
    decreases fields
  {
    |fields| == 0 || (Sized(fields[0]) && FieldsSized(fields[1..]))
  }

  /** An instruction, as the footprint passes classify it: a call (to a
      named function, or indirect), a stack allocation (with a constant
      element count, or not), or anything else producing a value. */
  datatype Inst =
    | Call(callee: Option<string>, retTy: IRType)
    | Alloca(count: Option<nat>, allocTy: IRType)
    | OtherInst(valueTy: IRType)

  /** A function of the module: a declaration has no body. */
  datatype Function = Function(name: string, ty: FunctionType, external: bool, declaration: bool, body: seq<Inst>)

  /** Metadata operands: a reference to a function, a node of operands, a
      constant integer, or something else. */
  datatype MD = FuncRef(name: string) | Node(ops: seq<MD>) | ConstInt(v: nat) | OtherMD

  /** A module: its functions in order and, when present, the operands of
      each node of the `opencl.kernels` named metadata. */
  datatype IRModule = IRModule(functions: seq<Function>, kernels: Option<seq<seq<MD>>>)

  /** The names of the module's functions. */
  function Names(m: IRModule): (r: set<string>)
    ensures forall k :: 0 <= k < |m.functions| ==> m.functions[k].name in r
    ensures forall n :: n in r ==> exists k :: 0 <= k < |m.functions| && m.functions[k].name == n
  {
    set k | 0 <= k < |m.functions| :: m.functions[k].name
  }

  /** `Module::getFunction`: the function with that name, or null. */
  function GetFunction(m: IRModule, name: string): (r: Option<Function>)
    ensures r.None? <==> name !in Names(m)
    ensures r.Some? ==> r.value.name == name && r.value in m.functions
  {
    FindFrom(m.functions, name, 0)
  }

  function FindFrom(fs: seq<Function>, name: string, i: nat): (r: Option<Function>)
    requires i <= |fs|
    ensures r.None? <==> forall k :: i <= k < |fs| ==> fs[k].name != name
    ensures r.Some? ==> r.value.name == name && r.value in fs
    decreases |fs| - i
  {
    if i == |fs| then None
    else if fs[i].name == name then Some(fs[i])
    else FindFrom(fs, name, i + 1)
  }
}
