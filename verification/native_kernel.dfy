/** Native kernels (`clEnqueueNativeKernel`, section 5.8 of the OpenCL 1.1
    specification): a host function run on a private copy of an argument
    block. Some words of the block hold memory objects; the builder records
    where, the command moves those locations into its copy of the block,
    and before running it writes each object's device address into its
    location. Addresses are numbers; the copy's address is a parameter,
    since it comes from the host allocator. */
module NativeKernel {
  import opened Results
  import opened ClCodes
  import D = Diagnostics
  import C = Command
  import E = Event

  /** The argument block: its address (`None` for null) and its size. */
  datatype Args = Args(ptr: Option<nat>, size: nat)

  /** `EnqueueNativeKernelBuilder`: the function, the block, and the location
      recorded for each memory object (keyed by the object's identity). */
  datatype Builder = Builder(base: C.Base, func: Option<nat>, args: Args, mappings: map<nat, nat>)

  /** What every builder reachable through the operations below satisfies:
      a consistent code, and a function unless an error was recorded. */
  predicate Ready(nb: Builder) {
    C.Consistent(nb.base) && (nb.base.errCode == CL_SUCCESS ==> nb.func.Some?)
  }

  /** The constructor: a function is needed, and the block's pointer and
      size must be both null/zero or both set. The three checks are
      independent and all report `CL_INVALID_VALUE`. */
  function New(func: Option<nat>, args: Args): (r: Builder)
    ensures r.func == func && r.args == args && r.mappings == map[] && r.base.waitList == []
    ensures Ready(r)
    ensures r.base.errCode == CL_SUCCESS <==> func.Some? && (args.ptr.Some? <==> args.size != 0)
    ensures r.base.errCode != CL_SUCCESS ==> r.base.errCode == CL_INVALID_VALUE
    ensures |r.base.diagnostics| == (if func.None? then 1 else 0) + (if args.ptr.Some? <==> args.size != 0 then 0 else 1)
  {
    var b1 := if func.None? then C.NotifyError(C.NewBase, CL_INVALID_VALUE, D.NoWorkingFunction)
              else C.NewBase;
    var b2 := if args.ptr.None? && args.size != 0 then C.NotifyError(b1, CL_INVALID_VALUE, D.ExpectedArgsPointer) else b1;
    var b3 := if args.ptr.Some? && args.size == 0 then C.NotifyError(b2, CL_INVALID_VALUE, D.ExpectedArgsSize) else b2;
    Builder(b3, func, args, map[])
  }

  /** Entry `j` is the last among `objs[j..k]` naming its object, so its
      location is the one recorded for that object. */
  predicate LastAt(objs: seq<Option<nat>>, j: nat, k: nat)
    requires j < k <= |objs|
  {
    forall j' :: j < j' < k ==> objs[j'] != objs[j]
  }

  /** The recording loop of `SetMemoryMappings` over `objs[i..k]`, none of
      them null: each entry overwrites the location of its object. */
  function Put(m: map<nat, nat>, objs: seq<Option<nat>>, locs: seq<nat>, i: nat, k: nat): (r: map<nat, nat>)
    requires i <= k <= |objs| && k <= |locs|
    requires forall j :: i <= j < k ==> objs[j].Some?
    ensures forall o :: o in r <==> o in m || exists j :: i <= j < k && objs[j] == Some(o)
    ensures forall o :: o in m && (forall j :: i <= j < k ==> objs[j] != Some(o)) ==> r[o] == m[o]
    ensures forall j :: i <= j < k && LastAt(objs, j, k) ==> r[objs[j].value] == locs[j]
    decreases k - i
  {
    if i == k then m
    else
      var r := Put(m[objs[i].value := locs[i]], objs, locs, i + 1, k);
      assert forall j :: i < j < k && LastAt(objs, j, k) ==> r[objs[j].value] == locs[j];
      r
  }

  /** The first null memory object among `objs[0..n]`, or `n`. */
  function FirstNullObj(objs: seq<Option<nat>>, i: nat, n: nat): (k: nat)
    requires i <= n <= |objs|
    ensures i <= k <= n
    ensures forall j :: i <= j < k ==> objs[j].Some?
    ensures k < n ==> objs[k].None?
    decreases n - i
  {
    if i == n || objs[i].None? then i else FirstNullObj(objs, i + 1, n)
  }

  /** The argument lists `SetMemoryMappings` refuses before looking at the
      entries: mappings without an argument block, lists without a count,
      or a count without both lists. */
  predicate MappingsUnexpected(nb: Builder, n: nat, objs: Option<seq<Option<nat>>>, locs: Option<seq<nat>>) {
    (n > 0 && nb.args.ptr.None?) || (n == 0 && (objs.Some? || locs.Some?))
  }

  /** `SetMemoryMappings`. */
  function SetMemoryMappings(nb: Builder, n: nat, objs: Option<seq<Option<nat>>>, locs: Option<seq<nat>>): (r: Builder)
    requires objs.Some? ==> n <= |objs.value|
    requires locs.Some? ==> n <= |locs.value|
    ensures C.Keeps(nb.base, r.base) && r.base.waitList == nb.base.waitList
    ensures r.func == nb.func && r.args == nb.args
    ensures Ready(nb) ==> Ready(r)
    ensures MappingsUnexpected(nb, n, objs, locs) || (n > 0 && (objs.None? || locs.None?)) ==>
      r == nb.(base := r.base) && r.base.errCode == CL_INVALID_VALUE && r.base.diagnostics != nb.base.diagnostics
    ensures !MappingsUnexpected(nb, n, objs, locs) && n > 0 && objs.Some? && locs.Some? ==>
      var k := FirstNullObj(objs.value, 0, n);
      && r.mappings == Put(nb.mappings, objs.value, locs.value, 0, k)
      && (r.base.diagnostics != nb.base.diagnostics <==> k < n)
      && (k < n ==> r.base.errCode == CL_INVALID_MEM_OBJECT)
    ensures n == 0 && objs.None? && locs.None? ==> r == nb
  {
    if MappingsUnexpected(nb, n, objs, locs) then nb.(base := C.NotifyError(nb.base, CL_INVALID_VALUE, D.UnexpectedMappings))
    else if n > 0 && (objs.None? || locs.None?) then nb.(base := C.NotifyError(nb.base, CL_INVALID_VALUE, D.ExpectedMappings))
    else if n == 0 then nb
    else
      var k := FirstNullObj(objs.value, 0, n);
      var m := Put(nb.mappings, objs.value, locs.value, 0, k);
      if k < n then nb.(base := C.NotifyError(nb.base, CL_INVALID_MEM_OBJECT, D.InvalidMemoryObject), mappings := m)
      else nb.(mappings := m)
  }

  /** `SetWaitList`: the shared wait-list setter. */
  function SetWaitList(nb: Builder, n: nat, evs: Option<seq<Option<E.Event>>>): (r: Builder)
    requires evs.Some? ==> n <= |evs.value|
    ensures C.Keeps(nb.base, r.base)
    ensures Ready(nb) ==> Ready(r)
    ensures r == nb.(base := C.SetWaitList(nb.base, n, evs))
  {
    nb.(base := C.SetWaitList(nb.base, n, evs))
  }

  /** The command's constructor moves every recorded location from the
      caller's block (at `from`) into the copy (at `to`). */
  function Rebase(m: map<nat, nat>, from: nat, to: nat): (r: map<nat, int>)
    ensures r.Keys == m.Keys
  {
    map o | o in m :: to + (m[o] - from)
  }

  /** Rebasing keeps the layout: each location keeps its distance from the
      block's start and from every other location, so a location inside the
      caller's block lands inside the copy. */
  lemma RebaseKeepsLayout(m: map<nat, nat>, from: nat, to: nat, size: nat)
    ensures var r := Rebase(m, from, to);
      forall o :: o in m ==>
        && r[o] - to == m[o] - from
        && (forall p :: p in m ==> r[o] - r[p] == (m[o] as int) - (m[p] as int))
        && (from <= m[o] < from + size ==> to <= r[o] < to + size)
  {
  }

  /** `RemapMemoryObjAddresses`: the value written into each recorded
      location: the object's global address, or null when the device has
      none for it. */
  function Remap(m: map<nat, int>, global: map<nat, nat>): (r: map<nat, Option<nat>>)
    ensures r.Keys == m.Keys
    ensures forall o :: o in r ==> (r[o].Some? <==> o in global)
    ensures forall o :: o in r && o in global ==> r[o] == Some(global[o])
  {
    map o | o in m :: if o in global then Some(global[o]) else None
  }

  /** `Create`: no command once an error was recorded; otherwise a command
      running the function on the copy at `copy`, with the mappings moved
      into it. */
  function Create(nb: Builder, copy: nat): (r: C.Created)
    requires Ready(nb)
    ensures r.command.None? <==> |nb.base.diagnostics| > 0
    ensures r.code == nb.base.errCode
    ensures r.command.Some? ==>
      && r.command.value.kind.NativeKernel?
      && r.command.value.waitList == nb.base.waitList
      && r.command.value.kind.args == copy && r.command.value.kind.argsSize == nb.args.size
      && r.command.value.kind.mappings.Keys == nb.mappings.Keys
  {
    if nb.base.errCode != CL_SUCCESS then C.Created(None, nb.base.errCode)
    else
      var from := if nb.args.ptr.Some? then nb.args.ptr.value else 0;
      var kind := C.NativeKernel(nb.func.value, copy, nb.args.size, Rebase(nb.mappings, from, copy));
      C.Created(Some(C.Command(kind, nb.base.waitList, false)), CL_SUCCESS)
  }
}
