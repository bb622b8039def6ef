/** The two footprint passes: `FootprintEstimator`, a module pass keeping
    one footprint per kernel and discarding kernels it cannot analyse, and
    `FootprintEstimate`, a function pass accumulating one set of counters
    over every kernel it visits and never failing. Both bound from below
    the memory a work-item needs: stack allocations go to private memory,
    every other value produced to temporary memory. */
module Footprint {
  import opened Results
  import opened IR
  import MD = Metadata

  // ---------------------------------------------------------------------
  // Type sizes (`GetSizeLowerBound`, the same in both passes).

  /** The bytes holding an integer of `bits` bits: the width rounded up to
      whole bytes. */
  function IntBytes(bits: nat): (r: nat)
    ensures r * 8 >= bits && (r == 0 || (r - 1) * 8 < bits)
  {
    if bits % 8 != 0 then bits / 8 + 1 else bits / 8
  }

  /** `GetSizeLowerBound`: no target information is available, so sizes
      come from the types alone, with pointers counted as 32 bits and no
      padding. Unsized types take nothing. */
  function SizeLowerBound(t: IRType): (r: nat)
    ensures !Sized(t) ==> r == 0
    decreases t
  {
    if !Sized(t) then 0
    else match t
      case IntTy(bits) => IntBytes(bits)
      case StructTy(fields, _) => FieldsLowerBound(fields)
      case ArrayTy(elem, n) => n * SizeLowerBound(elem)
      case VectorTy(elem, n) => n * SizeLowerBound(elem)
      case PointerTy(_, _) => 4
      case _ => if SizedPrimitive(t) then PrimitiveBits(t) / 8 else 0
  }

  function FieldsLowerBound(fields: seq<IRType>): nat
    decreases fields
  {
    if |fields| == 0 then 0 else SizeLowerBound(fields[0]) + FieldsLowerBound(fields[1..])
  }

  /** The scalar leaves of a type, aggregates flattened and arrays and
      vectors repeated element by element. */
  function Leaves(t: IRType): seq<IRType>
    decreases t
  {
    match t
    case StructTy(fields, _) => FieldsLeaves(fields)
    case ArrayTy(elem, n) => Repeat(Leaves(elem), n)
    case VectorTy(elem, n) => Repeat(Leaves(elem), n)
    case _ => [t]
  }

  function FieldsLeaves(fields: seq<IRType>): seq<IRType>
    decreases fields
  {
    if |fields| == 0 then [] else Leaves(fields[0]) + FieldsLeaves(fields[1..])
  }

  function Repeat<T>(xs: seq<T>, n: nat): seq<T> {
    if n == 0 then [] else xs + Repeat(xs, n - 1)
  }

  /** The bytes of a scalar leaf. */
  function LeafBytes(t: IRType): nat {
    match t
    case IntTy(bits) => IntBytes(bits)
    case PointerTy(_, _) => 4
    case _ => if SizedPrimitive(t) then PrimitiveBits(t) / 8 else 0
  }

  function SumBytes(ts: seq<IRType>): nat {
    if |ts| == 0 then 0 else LeafBytes(ts[0]) + SumBytes(ts[1..])
  }

  lemma {:induction false} SumBytesAppend(a: seq<IRType>, b: seq<IRType>)
    ensures SumBytes(a + b) == SumBytes(a) + SumBytes(b)
    decreases |a|
  {
    if |a| > 0 {
      assert (a + b)[1..] == a[1..] + b;
      SumBytesAppend(a[1..], b);
    } else {
      assert a + b == b;
    }
  }

  lemma {:induction false} SumBytesRepeat(xs: seq<IRType>, n: nat)
    ensures SumBytes(Repeat(xs, n)) == n * SumBytes(xs)
    decreases n
  {
    if n > 0 {
      SumBytesAppend(xs, Repeat(xs, n - 1));
      SumBytesRepeat(xs, n - 1);
    }
  }

  /** The size bound of a sized type is the sum of the bytes of its scalar
      leaves: nothing is counted twice and nothing is padded. */
  lemma {:induction false} SizeIsSumOfLeaves(t: IRType)
    requires Sized(t)
    ensures SizeLowerBound(t) == SumBytes(Leaves(t))
    decreases t
  {
    match t
    case StructTy(fields, _) => FieldsAreSumOfLeaves(fields);
    case ArrayTy(elem, n) =>
      SizeIsSumOfLeaves(elem);
      SumBytesRepeat(Leaves(elem), n);
    case VectorTy(elem, n) =>
      SizeIsSumOfLeaves(elem);
      SumBytesRepeat(Leaves(elem), n);
    case _ =>
  }

  lemma {:induction false} FieldsAreSumOfLeaves(fields: seq<IRType>)
    requires FieldsSized(fields)
    ensures FieldsLowerBound(fields) == SumBytes(FieldsLeaves(fields))
    decreases fields
  {
    if |fields| > 0 {
      SizeIsSumOfLeaves(fields[0]);
      FieldsAreSumOfLeaves(fields[1..]);
      SumBytesAppend(Leaves(fields[0]), FieldsLeaves(fields[1..]));
    }
  }

  // ---------------------------------------------------------------------
  // What one instruction costs.

  /** An instruction the estimator refuses: an indirect call, a call to a
      function without external linkage, or an alloca whose element count
      is not a constant. */
  predicate Malformed(m: IRModule, inst: Inst) {
    match inst
    case Call(callee, _) =>
      callee.None? || (var f := GetFunction(m, callee.value); f.None? || !f.value.external)
    case Alloca(count, _) => count.None?
    case OtherInst(_) => false
  }

  /** The private memory an instruction takes: a constant alloca's count
      times the allocated type's size. */
  function PrivateOf(inst: Inst): nat {
    if inst.Alloca? && inst.count.Some? then inst.count.value * SizeLowerBound(inst.allocTy) else 0
  }

  /** The temporary memory a well-formed instruction takes: the value it
      produces. */
  function TempOf(m: IRModule, inst: Inst): nat {
    if Malformed(m, inst) then 0
    else match inst
      case Call(_, retTy) => SizeLowerBound(retTy)
      case Alloca(_, _) => 0
      case OtherInst(ty) => SizeLowerBound(ty)
  }

  /** The private memory of a sequence of instructions. */
  function PrivateSum(body: seq<Inst>): nat {
    if |body| == 0 then 0 else PrivateSum(body[..|body| - 1]) + PrivateOf(body[|body| - 1])
  }

  /** The temporary memory of a sequence of instructions. */
  function TempSum(m: IRModule, body: seq<Inst>): nat {
    if |body| == 0 then 0 else TempSum(m, body[..|body| - 1]) + TempOf(m, body[|body| - 1])
  }

  /** The max work-group size both passes estimate (`GetMaxWorkGroupSize`):
      the most work-items whose private memory fits in what is available;
      with no private memory known, each work-item is taken to need one
      byte. */
  function MaxWorkGroupSize(privateMem: nat, available: nat): (r: nat)
    ensures privateMem == 0 ==> r == available
    ensures privateMem > 0 ==> r * privateMem <= available < (r + 1) * privateMem
  {
    if privateMem > 0 then available / privateMem else available
  }

  // ---------------------------------------------------------------------
  // `FootprintEstimator`.

  /** A kernel's footprint; both counters start at 0. */
  datatype Footprint = Footprint(privateMem: nat, temp: nat)

  /** `FootprintEstimator::AnalyzeMemoryUsage`: whether the instruction is
      refused, and the footprint after it. A refused instruction adds
      nothing; any other adds to exactly one counter. */
  function EstimatorStep(m: IRModule, inst: Inst, data: Footprint): (r: (bool, Footprint))
    ensures r.0 <==> Malformed(m, inst)
    ensures r.0 ==> r.1 == data
    ensures inst.Alloca? ==> r.1.temp == data.temp
    ensures !inst.Alloca? ==> r.1.privateMem == data.privateMem
    ensures r.1 == Footprint(data.privateMem + PrivateOf(inst), data.temp + TempOf(m, inst))
  {
    match inst
    case Call(callee, retTy) =>
      if callee.None? then (true, data)
      else
        var f := GetFunction(m, callee.value);
        if f.None? || !f.value.external then (true, data)
        else (false, data.(temp := data.temp + SizeLowerBound(retTy)))
    case Alloca(count, ty) =>
      if count.Some? then (false, data.(privateMem := data.privateMem + count.value * SizeLowerBound(ty)))
      else (true, data)
    case OtherInst(ty) => (false, data.(temp := data.temp + SizeLowerBound(ty)))
  }

  /** The footprint the estimator keeps for a kernel body: none when some
      instruction is refused, otherwise the private and temporary sums. */
  function Expected(m: IRModule, body: seq<Inst>): Option<Footprint> {
    if exists k :: 0 <= k < |body| && Malformed(m, body[k]) then None
    else Some(Footprint(PrivateSum(body), TempSum(m, body)))
  }

  /** `FootprintEstimator::AnalyzeKernel`: the instructions in order,
      stopping at the first refused one; the footprint is kept only when
      none was refused. */
  method AnalyzeKernel(m: IRModule, body: seq<Inst>) returns (r: Option<Footprint>)
    ensures r == Expected(m, body)
  {
    var data := Footprint(0, 0);
    var err := false;
    var i := 0;
    while i < |body| && !err
      invariant 0 <= i <= |body|
      invariant err <==> i > 0 && Malformed(m, body[i - 1])
      invariant forall k :: 0 <= k < i - 1 ==> !Malformed(m, body[k])
      invariant !err ==> data == Footprint(PrivateSum(body[..i]), TempSum(m, body[..i]))
      decreases |body| - i
    {
      var step := EstimatorStep(m, body[i], data);
      SumsStep(m, body, i);
      err, data := step.0, step.1;
      i := i + 1;
    }
    if err {
      return None;
    }
    assert body[..i] == body;
    return Some(data);
  }

  /** The sums over one more instruction. */
  lemma SumsStep(m: IRModule, body: seq<Inst>, i: nat)
    requires i < |body|
    ensures PrivateSum(body[..i + 1]) == PrivateSum(body[..i]) + PrivateOf(body[i])
    ensures TempSum(m, body[..i + 1]) == TempSum(m, body[..i]) + TempOf(m, body[i])
  {
    assert body[..i + 1][..i] == body[..i];
  }

  /** `FootprintEstimator::runOnModule`: the footprints it keeps, by
      kernel. */
  method RunOnModule(m: IRModule, kernel: string) returns (fps: map<string, Footprint>)
    ensures forall n :: n in fps <==> n in MD.SelectKernels(m, kernel) && Expected(m, GetFunction(m, n).value.body).Some?
    ensures forall n :: n in fps ==> Some(fps[n]) == Expected(m, GetFunction(m, n).value.body)
  {
    var kernels := MD.SelectKernels(m, kernel);
    fps := map[];
    var i := 0;
    while i < |kernels|
      invariant 0 <= i <= |kernels|
      invariant forall n :: n in fps <==> n in kernels[..i] && Expected(m, GetFunction(m, n).value.body).Some?
      invariant forall n :: n in fps ==> Some(fps[n]) == Expected(m, GetFunction(m, n).value.body)
      decreases |kernels| - i
    {
      var f := GetFunction(m, kernels[i]).value;
      var fp := AnalyzeKernel(m, f.body);
      if fp.Some? {
        fps := fps[kernels[i] := fp.value];
      }
      assert kernels[..i + 1] == kernels[..i] + [kernels[i]];
      i := i + 1;
    }
    assert kernels[..i] == kernels;
  }

  // ---------------------------------------------------------------------
  // `FootprintEstimate`.

  /** The counters of `FootprintEstimate`; all start at 0. */
  datatype Counters = Counters(localMem: nat, privateMem: nat, temp: nat)

  /** `FootprintEstimate::AnalyzeMemoryUsage`: a refused instruction adds
      nothing and the analysis goes on; nothing touches the local
      counter. */
  function EstimateStep(m: IRModule, inst: Inst, c: Counters): (r: Counters)
    ensures r.localMem == c.localMem
    ensures Malformed(m, inst) ==> r == c
    ensures var (_, fp) := EstimatorStep(m, inst, Footprint(c.privateMem, c.temp));
      r.privateMem == fp.privateMem && r.temp == fp.temp
  {
    match inst
    case Call(callee, retTy) =>
      if callee.None? then c
      else
        var f := GetFunction(m, callee.value);
        if f.None? || !f.value.external then c
        else c.(temp := c.temp + SizeLowerBound(retTy))
    case Alloca(count, ty) =>
      if count.Some? then c.(privateMem := c.privateMem + count.value * SizeLowerBound(ty)) else c
    case OtherInst(ty) => c.(temp := c.temp + SizeLowerBound(ty))
  }

  function EstimateBody(m: IRModule, body: seq<Inst>, c: Counters): Counters
    decreases |body|
  {
    if |body| == 0 then c else EstimateBody(m, body[1..], EstimateStep(m, body[0], c))
  }

  /** Analysing a body adds its private and temporary sums and leaves the
      local counter alone. */
  lemma {:induction false} EstimateBodySums(m: IRModule, body: seq<Inst>, c: Counters)
    ensures EstimateBody(m, body, c) == Counters(c.localMem, c.privateMem + PrivateSum(body), c.temp + TempSum(m, body))
    decreases |body|
  {
    if |body| > 0 {
      var c' := EstimateStep(m, body[0], c);
      EstimateBodySums(m, body[1..], c');
      SumsFront(m, body);
    }
  }

  lemma {:induction false} SumsFront(m: IRModule, body: seq<Inst>)
    requires |body| > 0
    ensures PrivateSum(body) == PrivateOf(body[0]) + PrivateSum(body[1..])
    ensures TempSum(m, body) == TempOf(m, body[0]) + TempSum(m, body[1..])
    decreases |body|
  {
    if |body| > 1 {
      var init := body[..|body| - 1];
      SumsFront(m, init);
      assert init[1..] == body[1..][..|body[1..]| - 1];
      assert init[0] == body[0];
    } else {
      assert body[1..] == [];
      assert body[..0] == [];
    }
  }

  /** `FootprintEstimate::runOnFunction`: only a kernel is analysed, and
      only the named one when a name is set. */
  function RunOnFunction(m: IRModule, f: Function, kernel: string, c: Counters): (r: Counters)
    ensures !MD.ListedAsKernel(m, f.name) || (kernel != f.name && kernel != "") ==> r == c
    ensures r.localMem == c.localMem && r.privateMem >= c.privateMem && r.temp >= c.temp
  {
    if MD.ListedAsKernel(m, f.name) && (kernel == f.name || kernel == "") then
      EstimateBodySums(m, f.body, c);
      EstimateBody(m, f.body, c)
    else c
  }

  /** The pass run over the functions of a module, in order, on one set of
      counters. */
  function RunOnFunctions(m: IRModule, fs: seq<Function>, kernel: string, c: Counters): (r: Counters)
    ensures r.localMem == c.localMem
    decreases |fs|
  {
    if |fs| == 0 then c else RunOnFunctions(m, fs[1..], kernel, RunOnFunction(m, fs[0], kernel, c))
  }

  /** `GetLocalMemoryUsage` is always 0: the local counter starts at 0 and
      nothing changes it. */
  lemma LocalAlwaysZero(m: IRModule, kernel: string)
    ensures RunOnFunctions(m, m.functions, kernel, Counters(0, 0, 0)).localMem == 0
  {
  }

  /** On a kernel the estimator accepts, the estimate pass counts what the
      estimator keeps; where the estimator gives up, the estimate still
      counts every well-formed instruction. */
  lemma PassesAgree(m: IRModule, f: Function)
    requires MD.ListedAsKernel(m, f.name)
    ensures var c := RunOnFunction(m, f, f.name, Counters(0, 0, 0));
      && c.privateMem == PrivateSum(f.body) && c.temp == TempSum(m, f.body)
      && (Expected(m, f.body).Some? ==> Expected(m, f.body) == Some(Footprint(c.privateMem, c.temp)))
  {
    EstimateBodySums(m, f.body, Counters(0, 0, 0));
  }
}
