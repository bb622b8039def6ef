/** Programs (`clCreateProgramWithSource`, `clBuildProgram`,
    `clCreateKernel`, sections 5.6 and 5.7 of the OpenCL 1.1
    specification): the source, one build record per device a build was
    attempted on, and the kernels attached to the program. Devices,
    kernels and the program's context are identified by number; build
    records are visited in increasing device number, standing for the
    pointer order of the record map. The compiler is a parameter: the
    module it produces for a device, or `None` when compilation fails. */
module Program {
  import opened Results
  import opened ClCodes
  import D = Diagnostics
  import opened IR
  import MD = Metadata
  import K = Kernel

  // ---------------------------------------------------------------------
  // Build records.

  /** `BuildInformation`: the build status and the last module a
      successful build produced. */
  datatype BuildInfo = BuildInfo(status: int, bitcode: Option<IRModule>)

  /** A fresh record: nothing built yet. */
  const NewInfo := BuildInfo(CL_BUILD_NONE, None)

  /** `BuildInformation::GetKernel`: no kernel without a module. */
  function InfoKernel(info: BuildInfo, name: string): (r: Option<Function>)
    ensures r.Some? ==> info.bitcode.Some? && r.value.name == name && r.value in info.bitcode.value.functions
  {
    if info.bitcode.None? then None else MD.GetKernel(info.bitcode.value, name)
  }

  /** A record defines a kernel exactly when it has a module in which a
      function of that name is listed as a kernel. */
  lemma DefineKernelIff(info: BuildInfo, name: string)
    ensures DefineKernel(info, name) <==>
      info.bitcode.Some? && name in Names(info.bitcode.value) && MD.ListedAsKernel(info.bitcode.value, name)
  {
  }

  /** `GetKernelType`: the kernel's function type, or null. */
  function InfoKernelType(info: BuildInfo, name: string): Option<FunctionType> {
    match InfoKernel(info, name)
    case None => None
    case Some(f) => Some(f.ty)
  }

  predicate IsBuilt(info: BuildInfo) {
    info.status == CL_BUILD_SUCCESS
  }

  predicate InProgress(info: BuildInfo) {
    info.status == CL_BUILD_IN_PROGRESS
  }

  /** `DefineKernel`: the module defines the kernel, whatever the status. */
  predicate DefineKernel(info: BuildInfo, name: string) {
    InfoKernel(info, name).Some?
  }

  // ---------------------------------------------------------------------
  // Device order.

  /** `m` is the smallest element of `s`. */
  predicate IsLeast(m: nat, s: set<nat>) {
    m in s && forall y :: y in s ==> m <= y
  }

  lemma {:induction false} LeastExists(s: set<nat>)
    requires s != {}
    ensures exists m :: IsLeast(m, s)
    decreases |s|
  {
    var x :| x in s;
    if s != {x} {
      var s' := s - {x};
      LeastExists(s');
      var m :| IsLeast(m, s');
      forall y | y in s ensures y == x || y in s' { }
      if x < m { assert IsLeast(x, s); } else { assert IsLeast(m, s); }
    } else {
      forall y | y in s ensures y == x { assert y in {x}; }
      assert IsLeast(x, s);
    }
  }

  /** The smallest element of a non-empty set. */
  function Least(s: set<nat>): (m: nat)
    requires s != {}
    ensures m in s && forall y :: y in s ==> m <= y
  {
    LeastExists(s);
    var m :| IsLeast(m, s);
    m
  }

  /** The elements of a set in increasing order. */
  function Ascending(s: set<nat>): (r: seq<nat>)
    ensures |r| == |s|
    ensures forall x :: x in r <==> x in s
    ensures forall i, j :: 0 <= i < j < |r| ==> r[i] < r[j]
    decreases |s|
  {
    if s == {} then []
    else
      var m := Least(s);
      var rest := Ascending(s - {m});
      AscendingCons(s, m, rest);
      [m] + rest
  }

  /** The least element in front of the rest in increasing order. */
  lemma AscendingCons(s: set<nat>, m: nat, rest: seq<nat>)
    requires m in s && forall x :: x in s ==> m <= x
    requires |rest| == |s - {m}| && forall x :: x in rest <==> x in s - {m}
    requires forall i, j :: 0 <= i < j < |rest| ==> rest[i] < rest[j]
    ensures var r := [m] + rest;
      && |r| == |s| && (forall x :: x in r <==> x in s)
      && forall i, j :: 0 <= i < j < |r| ==> r[i] < r[j]
  {
    var r := [m] + rest;
    forall j | 0 <= j < |rest| ensures m < rest[j] {
      assert rest[j] in s - {m};
    }
    forall i, j | 0 <= i < j < |r| ensures r[i] < r[j] {
      assert r[j] == rest[j - 1];
      if i > 0 {
        assert r[i] == rest[i - 1];
      }
    }
  }

  // ---------------------------------------------------------------------
  // Programs.

  /** `Program`: its context and that context's devices, the source (the
      builder always gives one), the build records, and the attached
      kernels. */
  datatype Program = Program(context: nat, devices: seq<nat>, src: Option<string>, builds: map<nat, BuildInfo>, attached: set<nat>)

  /** The outcome of a build step or of kernel creation's diagnostics. */
  datatype Built = Built(prog: Program, code: int, diagnostics: seq<D.Diagnostic>)

  /** `Program::IsBuiltFor`, as written: a build was attempted for the
      device, whatever came of it. */
  predicate IsBuiltFor(p: Program, dev: nat) {
    dev in p.builds
  }

  /** No record is left in the middle of a build. */
  predicate NoneInProgress(p: Program) {
    forall d :: d in p.builds ==> !InProgress(p.builds[d])
  }

  /** What a single-device build needs to succeed: the device belongs to
      the context; without a source, a module from an earlier build;
      with one, no build under way and a compilation that succeeds. */
  predicate Buildable(p: Program, dev: nat, compiled: Option<IRModule>) {
    && dev in p.devices
    && (p.src.None? ==> dev in p.builds && p.builds[dev].bitcode.Some?)
    && (p.src.Some? ==> !(dev in p.builds && InProgress(p.builds[dev])) && compiled.Some?)
  }

  /** `Program::Build(Device &)`: the record is created first, then the
      device, the source and a pending build are checked; compilation
      replaces the module only when it succeeds. */
  function BuildOn(p: Program, dev: nat, compiled: Option<IRModule>): (r: Built)
    ensures r.prog == p.(builds := r.prog.builds)
    ensures r.prog.builds.Keys == p.builds.Keys + {dev}
    ensures forall d :: d in p.builds && d != dev ==> r.prog.builds[d] == p.builds[d]
    ensures r.code == CL_SUCCESS <==> Buildable(p, dev, compiled)
    ensures r.code == CL_SUCCESS ==> r.diagnostics == []
    ensures dev !in p.devices ==> r.code == CL_INVALID_DEVICE
    ensures dev in p.devices && p.src.None? && r.code != CL_SUCCESS ==> r.code == CL_INVALID_BINARY
    ensures dev in p.devices && p.src.Some? && dev in p.builds && InProgress(p.builds[dev]) ==> r.code == CL_INVALID_OPERATION
    ensures dev in p.devices && p.src.Some? && !(dev in p.builds && InProgress(p.builds[dev])) ==>
      && r.prog.builds[dev].status == (if compiled.Some? then CL_BUILD_SUCCESS else CL_BUILD_ERROR)
      && r.prog.builds[dev].bitcode == (if compiled.Some? then compiled else if dev in p.builds then p.builds[dev].bitcode else None)
      && (compiled.None? ==> r.code == CL_BUILD_PROGRAM_FAILURE)
    ensures !(dev in p.devices && p.src.Some? && !(dev in p.builds && InProgress(p.builds[dev]))) ==>
      r.prog.builds[dev] == (if dev in p.builds then p.builds[dev] else NewInfo)
  {
    var info := if dev in p.builds then p.builds[dev] else NewInfo;
    var p1 := p.(builds := p.builds[dev := info]);
    if dev !in p.devices then Built(p1, CL_INVALID_DEVICE, [D.DeviceNotInBuildContext])
    else if p.src.None? then
      if info.bitcode.None? then Built(p1, CL_INVALID_BINARY, [D.NoSourceOrBinary])
      else Built(p1, CL_SUCCESS, [])
    else if InProgress(info) then Built(p1, CL_INVALID_OPERATION, [D.BuildInProgress])
    else
      var done := BuildInfo(if compiled.Some? then CL_BUILD_SUCCESS else CL_BUILD_ERROR,
                            if compiled.Some? then compiled else info.bitcode);
      Built(p.(builds := p.builds[dev := done]), if compiled.Some? then CL_SUCCESS else CL_BUILD_PROGRAM_FAILURE, [])
  }

  /** The loop of `Program::Build`: devices `list[i..]` in order, stopping
      at the first that does not build. */
  function BuildAll(p: Program, list: seq<nat>, i: nat, compile: nat -> Option<IRModule>): (r: Built)
    requires i <= |list|
    ensures r.prog == p.(builds := r.prog.builds)
    ensures p.builds.Keys <= r.prog.builds.Keys
    ensures NoneInProgress(p) ==> NoneInProgress(r.prog)
    decreases |list| - i
  {
    if i == |list| then Built(p, CL_SUCCESS, [])
    else
      var step := BuildOn(p, list[i], compile(list[i]));
      if step.code != CL_SUCCESS then step
      else
        var rest := BuildAll(step.prog, list, i + 1, compile);
        Built(rest.prog, rest.code, step.diagnostics + rest.diagnostics)
  }

  /** A successful build of one device leaves every device exactly as
      buildable as it was. */
  lemma BuildOnKeepsBuildable(p: Program, dev: nat, compile: nat -> Option<IRModule>, d: nat)
    requires BuildOn(p, dev, compile(dev)).code == CL_SUCCESS
    ensures Buildable(BuildOn(p, dev, compile(dev)).prog, d, compile(d)) <==> Buildable(p, d, compile(d))
  {
  }

  /** The loop succeeds exactly when every remaining device is buildable
      as the program stands before it. */
  lemma {:induction false} BuildAllSucceeds(p: Program, list: seq<nat>, i: nat, compile: nat -> Option<IRModule>)
    requires i <= |list|
    ensures BuildAll(p, list, i, compile).code == CL_SUCCESS <==>
      forall j :: i <= j < |list| ==> Buildable(p, list[j], compile(list[j]))
    decreases |list| - i
  {
    if i < |list| {
      var step := BuildOn(p, list[i], compile(list[i]));
      if step.code == CL_SUCCESS {
        BuildAllSucceeds(step.prog, list, i + 1, compile);
        forall j | i + 1 <= j < |list|
          ensures Buildable(step.prog, list[j], compile(list[j])) <==> Buildable(p, list[j], compile(list[j]))
        {
          BuildOnKeepsBuildable(p, list[i], compile, list[j]);
        }
      }
    }
  }

  /** The outcome of `Program::Build(Devs, ...)`: the build outcome and
      whether the completion callback was notified. */
  datatype Outcome = Outcome(built: Built, notified: bool)

  /** `Program::Build`: refused while kernels are attached; otherwise the
      given devices, or the context's when none are given, are built in
      order until one fails, and the callback is notified once. */
  function Build(p: Program, devs: seq<nat>, compile: nat -> Option<IRModule>): (r: Outcome)
    ensures r.notified <==> p.attached == {}
    ensures p.attached != {} ==>
      r.built == Built(p, CL_INVALID_OPERATION, [D.KernelsAttached])
    ensures p.attached == {} ==>
      var list := if devs == [] then p.devices else devs;
      && r.built.prog == p.(builds := r.built.prog.builds)
      && (forall d :: d in list ==> IsBuiltFor(r.built.prog, d) || r.built.code != CL_SUCCESS)
    ensures NoneInProgress(p) ==> NoneInProgress(r.built.prog)
  {
    if p.attached != {} then Outcome(Built(p, CL_INVALID_OPERATION, [D.KernelsAttached]), false)
    else
      var list := if devs == [] then p.devices else devs;
      var b := BuildAll(p, list, 0, compile);
      BuildAllRecords(p, list, 0, compile);
      Outcome(b, true)
  }

  /** A successful loop leaves a record for every device it was given. */
  lemma {:induction false} BuildAllRecords(p: Program, list: seq<nat>, i: nat, compile: nat -> Option<IRModule>)
    requires i <= |list|
    ensures BuildAll(p, list, i, compile).code == CL_SUCCESS ==>
      forall j :: i <= j < |list| ==> list[j] in BuildAll(p, list, i, compile).prog.builds
    decreases |list| - i
  {
    if i < |list| {
      var step := BuildOn(p, list[i], compile(list[i]));
      if step.code == CL_SUCCESS {
        BuildAllRecords(step.prog, list, i + 1, compile);
      }
    }
  }

  /** Builds never leave a record in progress, so a build reached through
      `Program::Build` never reports a pending one. */
  lemma NoPendingBuild(p: Program, dev: nat, compiled: Option<IRModule>)
    requires NoneInProgress(p)
    ensures NoneInProgress(BuildOn(p, dev, compiled).prog)
    ensures BuildOn(p, dev, compiled).code != CL_INVALID_OPERATION
  {
  }

  /** A build that fails to compile still leaves the device counted as
      built for, with its record in the error state; so does a build
      refused because the device is not in the context. */
  lemma FailedBuildCountsAsBuilt(p: Program, dev: nat, other: nat)
    requires dev in p.devices && p.src.Some? && NoneInProgress(p) && other !in p.devices
    ensures var r := BuildOn(p, dev, None);
      && r.code == CL_BUILD_PROGRAM_FAILURE
      && IsBuiltFor(r.prog, dev) && r.prog.builds[dev].status == CL_BUILD_ERROR
    ensures var r := BuildOn(p, other, None);
      r.code == CL_INVALID_DEVICE && IsBuiltFor(r.prog, other)
  {
  }

  // ---------------------------------------------------------------------
  // Kernel creation.

  /** The first device, in order, whose record defines the kernel. */
  function FirstDefining(p: Program, order: seq<nat>, name: string, i: nat): (r: nat)
    requires i <= |order| && forall x :: x in order ==> x in p.builds
    ensures i <= r <= |order|
    ensures forall j :: i <= j < r ==> !DefineKernel(p.builds[order[j]], name)
    ensures r < |order| ==> DefineKernel(p.builds[order[r]], name)
    decreases |order| - i
  {
    if i == |order| || DefineKernel(p.builds[order[i]], name) then i
    else FirstDefining(p, order, name, i + 1)
  }

  /** The codes gathered after the first defining record: every later
      built record must give the kernel the same type, and contributes
      its function. */
  function Gather(p: Program, order: seq<nat>, name: string, ty: FunctionType, i: nat): (r: Option<seq<K.Code>>)
    requires i <= |order| && forall x :: x in order ==> x in p.builds
    ensures r.Some? <==> forall j :: i <= j < |order| && IsBuilt(p.builds[order[j]]) ==>
      InfoKernelType(p.builds[order[j]], name) == Some(ty)
    ensures r.Some? ==> forall c :: c in r.value ==>
      && c.device in order[i..] && IsBuilt(p.builds[c.device])
      && Some(c.fn) == InfoKernel(p.builds[c.device], name) && c.fn.ty == ty
    decreases |order| - i
  {
    if i == |order| then Some([])
    else
      var info := p.builds[order[i]];
      if !IsBuilt(info) then
        var rest := Gather(p, order, name, ty, i + 1);
        assert rest.Some? ==> forall c :: c in rest.value ==> c.device in order[i..] by {
          assert forall x :: x in order[i + 1..] ==> x in order[i..];
        }
        rest
      else if InfoKernelType(info, name) != Some(ty) then None
      else
        match Gather(p, order, name, ty, i + 1)
        case None => None
        case Some(rest) =>
          assert forall c :: c in rest ==> c.device in order[i..] by {
            assert forall x :: x in order[i + 1..] ==> x in order[i..];
          }
          Some([K.Code(order[i], info.bitcode.value, InfoKernel(info, name).value)] + rest)
  }

  /** The outcome of `CreateKernel`: the program (with the kernel
      attached), the kernel or null, the code and the diagnostics. */
  datatype Created = Created(prog: Program, kernel: Option<K.Kernel>, code: int, diagnostics: seq<D.Diagnostic>)

  /** `Program::CreateKernel` once some build record exists, visiting the
      records in `order`: the first that defines the kernel supplies its
      type (whatever its status), and every later successful build must
      agree with it. */
  function CreateIn(p: Program, name: string, id: nat, order: seq<nat>): (r: Created)
    requires forall x :: x in order ==> x in p.builds
    ensures (forall j :: 0 <= j < |order| ==> !DefineKernel(p.builds[order[j]], name)) ==>
      r == Created(p, None, CL_INVALID_KERNEL_NAME, [D.NoKernelDefinition])
    ensures r.kernel.None? ==> r.prog == p && r.code != CL_SUCCESS && |r.diagnostics| == 1
    ensures r.kernel.Some? ==>
      && r.code == CL_SUCCESS && r.diagnostics == []
      && r.prog == p.(attached := p.attached + {id})
      && K.Valid(r.kernel.value) && r.kernel.value.context == p.context
      && (forall j :: 0 <= j < |r.kernel.value.args| ==> r.kernel.value.args[j].None?)
  {
    var k := FirstDefining(p, order, name, 0);
    if k == |order| then Created(p, None, CL_INVALID_KERNEL_NAME, [D.NoKernelDefinition])
    else
      var fst := p.builds[order[k]];
      var f := InfoKernel(fst, name).value;
      match Gather(p, order, name, f.ty, k + 1)
      case None => Created(p, None, CL_INVALID_KERNEL_DEFINITION, [D.SignaturesMismatch])
      case Some(rest) =>
        var codes := [K.Code(order[k], fst.bitcode.value, f)] + rest;
        Created(p.(attached := p.attached + {id}), Some(K.New(p.context, codes)), CL_SUCCESS, [])
  }

  /** `Program::CreateKernel`: needs some build record; the records are
      visited in device order. The new kernel, numbered `id`, is attached
      to the program. */
  function CreateKernel(p: Program, name: string, id: nat): (r: Created)
    ensures p.builds == map[] ==>
      r == Created(p, None, CL_INVALID_PROGRAM_EXECUTABLE, [D.NothingBuilt])
    ensures p.builds != map[] && (forall d :: d in p.builds ==> !DefineKernel(p.builds[d], name)) ==>
      r == Created(p, None, CL_INVALID_KERNEL_NAME, [D.NoKernelDefinition])
    ensures r.kernel.None? ==> r.prog == p && r.code != CL_SUCCESS && |r.diagnostics| == 1
    ensures r.kernel.Some? ==>
      && r.code == CL_SUCCESS && r.diagnostics == []
      && r.prog == p.(attached := p.attached + {id})
      && K.Valid(r.kernel.value) && r.kernel.value.context == p.context
      && (forall j :: 0 <= j < |r.kernel.value.args| ==> r.kernel.value.args[j].None?)
  {
    if p.builds == map[] then Created(p, None, CL_INVALID_PROGRAM_EXECUTABLE, [D.NothingBuilt])
    else CreateIn(p, name, id, Ascending(p.builds.Keys))
  }

  /** The record chosen as the first one defining the kernel: it is the
      smallest device whose record defines it. */
  lemma FirstDefiningIsLeast(p: Program, name: string, d: nat)
    requires d in p.builds && DefineKernel(p.builds[d], name)
    requires forall e :: e in p.builds && e < d ==> !DefineKernel(p.builds[e], name)
    ensures var order := Ascending(p.builds.Keys);
      var k := FirstDefining(p, order, name, 0);
      k < |order| && order[k] == d
  {
    var order := Ascending(p.builds.Keys);
    var k := FirstDefining(p, order, name, 0);
    var jd :| 0 <= jd < |order| && order[jd] == d;
    assert k <= jd;
    assert k < |order| && order[k] in p.builds && DefineKernel(p.builds[order[k]], name);
    assert d <= order[k];
    AscendingMono(order, k, jd);
  }

  lemma AscendingMono(r: seq<nat>, i: nat, j: nat)
    requires i <= j < |r| && forall a, b :: 0 <= a < b < |r| ==> r[a] < r[b]
    ensures r[i] <= r[j]
  {
  }

  /** In record order: a created kernel starts with the first defining
      record's function, every one of its codes is a record's function of
      the same type, and every later successful build agrees on it. */
  lemma CreatedCodesIn(p: Program, name: string, id: nat, order: seq<nat>)
    requires forall x :: x in order ==> x in p.builds
    requires CreateIn(p, name, id, order).kernel.Some?
    ensures var kern := CreateIn(p, name, id, order).kernel.value;
      var k := FirstDefining(p, order, name, 0);
      && k < |order| && kern.codes[0].device == order[k]
      && (forall c :: c in kern.codes ==>
            && c.device in p.builds && c.fn.name == name
            && Some(c.fn) == InfoKernel(p.builds[c.device], name) && c.fn.ty == kern.codes[0].fn.ty)
      && (forall j :: k < j < |order| && IsBuilt(p.builds[order[j]]) ==>
            InfoKernelType(p.builds[order[j]], name) == Some(kern.codes[0].fn.ty))
  {
    var k := FirstDefining(p, order, name, 0);
    var fst := p.builds[order[k]];
    var f := InfoKernel(fst, name).value;
    var rest := Gather(p, order, name, f.ty, k + 1).value;
    var kern := CreateIn(p, name, id, order).kernel.value;
    assert kern.codes == [K.Code(order[k], fst.bitcode.value, f)] + rest;
  }

  /** A created kernel holds the function of the first record, in device
      order, that defines it, and the function of every later successful
      build, all of the same type; every successful build on a later
      device gives the kernel that type, and no earlier record defines
      it. */
  lemma CreatedKernelCodes(p: Program, name: string, id: nat)
    requires CreateKernel(p, name, id).kernel.Some?
    ensures var kern := CreateKernel(p, name, id).kernel.value;
      && (forall c :: c in kern.codes ==>
            && c.device in p.builds && c.fn.name == name
            && Some(c.fn) == InfoKernel(p.builds[c.device], name) && c.fn.ty == kern.codes[0].fn.ty)
      && (forall d :: d in p.builds && IsBuilt(p.builds[d]) && d > kern.codes[0].device ==>
            InfoKernelType(p.builds[d], name) == Some(kern.codes[0].fn.ty))
      && (forall d :: d in p.builds && d < kern.codes[0].device ==> !DefineKernel(p.builds[d], name))
  {
    var order := Ascending(p.builds.Keys);
    assert CreateKernel(p, name, id) == CreateIn(p, name, id, order);
    var kern := CreateIn(p, name, id, order).kernel.value;
    CreatedCodesIn(p, name, id, order);
    var k := FirstDefining(p, order, name, 0);
    assert kern.codes[0].device == order[k];
    forall d | d in p.builds && IsBuilt(p.builds[d]) && d > order[k]
      ensures InfoKernelType(p.builds[d], name) == Some(kern.codes[0].fn.ty)
    {
      var j :| 0 <= j < |order| && order[j] == d;
      if j <= k {
        AscendingMono(order, j, k);
      }
    }
    forall d | d in p.builds && d < order[k]
      ensures !DefineKernel(p.builds[d], name)
    {
      var j :| 0 <= j < |order| && order[j] == d;
      if k <= j {
        AscendingMono(order, k, j);
      }
    }
  }

  /** A later successful build that gives the kernel another type, or
      lacks it, makes the records disagree. */
  lemma MismatchIn(p: Program, name: string, id: nat, order: seq<nat>, k: nat, je: nat)
    requires forall x :: x in order ==> x in p.builds
    requires k == FirstDefining(p, order, name, 0) && k < je < |order|
    requires IsBuilt(p.builds[order[je]]) && InfoKernelType(p.builds[order[je]], name) != InfoKernelType(p.builds[order[k]], name)
    ensures CreateIn(p, name, id, order) == Created(p, None, CL_INVALID_KERNEL_DEFINITION, [D.SignaturesMismatch])
  {
    var f := InfoKernel(p.builds[order[k]], name).value;
    assert Gather(p, order, name, f.ty, k + 1).None?;
  }

  /** A kernel is refused when a successful build on a later device gives
      it another type than the first record defining it, or lacks it. */
  lemma MismatchRefused(p: Program, name: string, id: nat, d: nat, e: nat)
    requires d in p.builds && DefineKernel(p.builds[d], name)
    requires forall x :: x in p.builds && x < d ==> !DefineKernel(p.builds[x], name)
    requires e in p.builds && e > d && IsBuilt(p.builds[e]) && InfoKernelType(p.builds[e], name) != InfoKernelType(p.builds[d], name)
    ensures CreateKernel(p, name, id) == Created(p, None, CL_INVALID_KERNEL_DEFINITION, [D.SignaturesMismatch])
  {
    var order := Ascending(p.builds.Keys);
    var k, je := MismatchPositions(p, name, d, e, order);
    MismatchIn(p, name, id, order, k, je);
  }

  /** Where the first defining record and the mismatching one sit in record
      order. */
  lemma MismatchPositions(p: Program, name: string, d: nat, e: nat, order: seq<nat>) returns (k: nat, je: nat)
    requires order == Ascending(p.builds.Keys)
    requires d in p.builds && DefineKernel(p.builds[d], name)
    requires forall x :: x in p.builds && x < d ==> !DefineKernel(p.builds[x], name)
    requires e in p.builds && e > d
    ensures k == FirstDefining(p, order, name, 0) && k < je < |order|
    ensures order[k] == d && order[je] == e
  {
    FirstDefiningIsLeast(p, name, d);
    k := FirstDefining(p, order, name, 0);
    je :| 0 <= je < |order| && order[je] == e;
    if je <= k {
      AscendingMono(order, je, k);
    }
  }

  /** `RegisterKernel` / `UnregisterKernel` and `HasAttachedKernels`: a
      kernel attached and then released leaves the other kernels as they
      were; a program whose kernels are all released can be built again. */
  function Unregister(p: Program, id: nat): (r: Program)
    ensures r.attached == p.attached - {id} && r == p.(attached := r.attached)
  {
    p.(attached := p.attached - {id})
  }

  lemma ReleaseAllowsRebuild(p: Program, name: string, id: nat, devs: seq<nat>, compile: nat -> Option<IRModule>)
    requires p.attached == {} && CreateKernel(p, name, id).kernel.Some?
    ensures Build(CreateKernel(p, name, id).prog, devs, compile).built.code == CL_INVALID_OPERATION
    ensures Build(Unregister(CreateKernel(p, name, id).prog, id), devs, compile) == Build(p, devs, compile)
  {
    var q := CreateKernel(p, name, id).prog;
    assert Unregister(q, id) == p;
  }

  // ---------------------------------------------------------------------
  // The program builder.

  /** `ProgramBuilder`: the context, the joined source once given, the
      error code and the diagnostics reported. */
  datatype Builder = Builder(context: nat, devices: seq<nat>, srcs: Option<string>, errCode: int, diagnostics: seq<D.Diagnostic>)

  function NewBuilder(context: nat, devices: seq<nat>): Builder {
    Builder(context, devices, None, CL_SUCCESS, [])
  }

  /** Source `i` as `SetSources` takes it: the given length when lengths
      are given and that one is non-zero, the whole string otherwise. */
  function Piece(srcs: seq<Option<string>>, lengths: Option<seq<nat>>, i: nat): string
    requires i < |srcs| && srcs[i].Some?
    requires lengths.Some? ==> i < |lengths.value| && lengths.value[i] <= |srcs[i].value|
  {
    if lengths.Some? && lengths.value[i] != 0 then srcs[i].value[..lengths.value[i]] else srcs[i].value
  }

  /** Where piece `i` starts in the joined source: each earlier piece is
      followed by a newline. */
  function Offset(srcs: seq<Option<string>>, lengths: Option<seq<nat>>, i: nat): nat
    requires i <= |srcs| && forall j :: 0 <= j < i ==> srcs[j].Some?
    requires lengths.Some? ==> i <= |lengths.value| && forall j :: 0 <= j < i ==> lengths.value[j] <= |srcs[j].value|
  {
    if i == 0 then 0 else Offset(srcs, lengths, i - 1) + |Piece(srcs, lengths, i - 1)| + 1
  }

  /** The lengths given describe the strings: none exceeds its string. */
  predicate LengthsFit(count: nat, srcs: seq<Option<string>>, lengths: Option<seq<nat>>) {
    lengths.Some? ==>
      && count <= |lengths.value|
      && forall j :: 0 <= j < count && j < |srcs| && srcs[j].Some? ==> lengths.value[j] <= |srcs[j].value|
  }

  /** Piece `i` and its newline sit at `Offset(i)` in `buf`. */
  predicate Laid(buf: string, srcs: seq<Option<string>>, lengths: Option<seq<nat>>, i: nat)
    requires i < |srcs| && forall j :: 0 <= j <= i ==> srcs[j].Some?
    requires lengths.Some? ==> i < |lengths.value| && forall j :: 0 <= j <= i ==> lengths.value[j] <= |srcs[j].value|
  {
    var o := Offset(srcs, lengths, i);
    var piece := Piece(srcs, lengths, i);
    o + |piece| < |buf| && buf[o..o + |piece|] == piece && buf[o + |piece|] == '\n'
  }

  /** `ProgramBuilder::SetSources`: refuses no sources and null entries;
      otherwise the joined source holds each piece followed by a newline,
      in order, and nothing else. */
  method SetSources(b: Builder, count: nat, srcs: Option<seq<Option<string>>>, lengths: Option<seq<nat>>) returns (r: Builder)
    requires srcs.Some? ==> count <= |srcs.value| && LengthsFit(count, srcs.value, lengths)
    ensures r.context == b.context && r.devices == b.devices
    ensures count == 0 || srcs.None? ==>
      r == b.(errCode := CL_INVALID_VALUE, diagnostics := b.diagnostics + [D.NoProgramGiven])
    ensures count > 0 && srcs.Some? && (exists j :: 0 <= j < count && srcs.value[j].None?) ==>
      r == b.(errCode := CL_INVALID_VALUE, diagnostics := b.diagnostics + [D.NullProgramGiven])
    ensures count > 0 && srcs.Some? && (forall j :: 0 <= j < count ==> srcs.value[j].Some?) ==>
      && r == b.(srcs := r.srcs) && r.srcs.Some?
      && |r.srcs.value| == Offset(srcs.value, lengths, count)
      && forall i :: 0 <= i < count ==> Laid(r.srcs.value, srcs.value, lengths, i)
  {
    if count == 0 || srcs.None? {
      return b.(errCode := CL_INVALID_VALUE, diagnostics := b.diagnostics + [D.NoProgramGiven]);
    }
    var ss := srcs.value;
    var buf := "";
    var i := 0;
    while i < count
      invariant 0 <= i <= count
      invariant forall j :: 0 <= j < i ==> ss[j].Some?
      invariant |buf| == Offset(ss, lengths, i)
      invariant forall j :: 0 <= j < i ==> Laid(buf, ss, lengths, j)
    {
      if ss[i].None? {
        return b.(errCode := CL_INVALID_VALUE, diagnostics := b.diagnostics + [D.NullProgramGiven]);
      }
      LaidAppend(buf, ss, lengths, i);
      buf := buf + Piece(ss, lengths, i) + "\n";
      i := i + 1;
    }
    return b.(srcs := Some(buf));
  }

  /** Appending the next piece and its newline lays it out after the
      earlier ones, which stay where they were. */
  lemma LaidAppend(buf: string, srcs: seq<Option<string>>, lengths: Option<seq<nat>>, i: nat)
    requires i < |srcs| && forall j :: 0 <= j <= i ==> srcs[j].Some?
    requires lengths.Some? ==> i < |lengths.value| && forall j :: 0 <= j <= i ==> lengths.value[j] <= |srcs[j].value|
    requires |buf| == Offset(srcs, lengths, i)
    requires forall j :: 0 <= j < i ==> Laid(buf, srcs, lengths, j)
    ensures var buf' := buf + Piece(srcs, lengths, i) + "\n";
      && |buf'| == Offset(srcs, lengths, i + 1)
      && forall j :: 0 <= j <= i ==> Laid(buf', srcs, lengths, j)
  {
    var piece := Piece(srcs, lengths, i);
    var buf' := buf + piece + "\n";
    assert buf' == buf + (piece + "\n");
    forall j | 0 <= j < i ensures Laid(buf', srcs, lengths, j) {
      LaidExtends(buf, piece + "\n", srcs, lengths, j);
    }
    assert buf'[|buf|..|buf| + |piece|] == piece;
  }

  lemma LaidExtends(buf: string, more: string, srcs: seq<Option<string>>, lengths: Option<seq<nat>>, i: nat)
    requires i < |srcs| && forall j :: 0 <= j <= i ==> srcs[j].Some?
    requires lengths.Some? ==> i < |lengths.value| && forall j :: 0 <= j <= i ==> lengths.value[j] <= |srcs[j].value|
    requires Laid(buf, srcs, lengths, i)
    ensures Laid(buf + more, srcs, lengths, i)
  {
    var o := Offset(srcs, lengths, i);
    var piece := Piece(srcs, lengths, i);
    assert (buf + more)[o..o + |piece|] == buf[o..o + |piece|];
  }

  /** `ProgramBuilder::Create`: an error recorded by the builder yields no
      program; otherwise a program over the joined source, with no builds
      and no kernels. */
  function Create(b: Builder): (r: (Option<Program>, int))
    requires b.errCode == CL_SUCCESS ==> b.srcs.Some?
    ensures r.0.None? <==> b.errCode != CL_SUCCESS
    ensures r.1 == b.errCode
    ensures r.0.Some? ==> r.0.value == Program(b.context, b.devices, b.srcs, map[], {})
  {
    if b.errCode != CL_SUCCESS then (None, b.errCode)
    else (Some(Program(b.context, b.devices, b.srcs, map[], {})), CL_SUCCESS)
  }

  /** A program fresh from the builder has a source, so every build of an
      associated device either succeeds or reports a compile failure. */
  lemma FreshProgramBuilds(b: Builder, dev: nat, compiled: Option<IRModule>)
    requires b.errCode == CL_SUCCESS && b.srcs.Some? && dev in b.devices
    ensures var p := Create(b).0.value;
      BuildOn(p, dev, compiled).code == (if compiled.Some? then CL_SUCCESS else CL_BUILD_PROGRAM_FAILURE)
  {
  }
}
