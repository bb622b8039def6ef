/** The builder of ND-range kernel launches (section 5.8 of the OpenCL 1.1
    specification): the work dimensions, the global sizes, the global
    offsets and the local sizes are checked against the kernel and the
    device, and `Create` turns them into the launch's `DimensionInfo`. */
module NDRange {
  import opened Results
  import opened ClCodes
  import D = Diagnostics
  import C = Command
  import E = Event
  import DI = DimensionInfo

  /** The device limits the builder consults. */
  datatype Device = Device(id: nat, maxDims: nat, sizeTypeMax: nat, maxItemSizes: seq<nat>, maxGroupSize: nat)

  /** A device lists a maximum item size for each dimension it supports. */
  predicate ValidDevice(d: Device) {
    |d.maxItemSizes| >= d.maxDims
  }

  /** What the builder asks of a kernel: the devices its program is built
      for, its context, whether all arguments are set, and the work-group
      size it requires, if any (three entries). */
  datatype Kernel = Kernel(id: nat, builtFor: set<nat>, context: nat, allArgsSpecified: bool,
                           requiresSizes: bool, requiredSizes: seq<nat>)

  predicate ValidKernel(k: Kernel) {
    |k.requiredSizes| == 3
  }

  datatype Builder = Builder(base: C.Base, dev: Device, kern: Kernel, workDims: nat,
                             globals: seq<nat>, offsets: seq<nat>, locals: seq<nat>)

  /** The first global size among `g[i..n]` that is 0 or above the device's
      `size_t` maximum, or `n`. */
  function FirstBadGlobal(g: seq<nat>, i: nat, n: nat, max: nat): (k: nat)
    requires i <= n <= |g|
    ensures i <= k <= n
    ensures forall j :: i <= j < k ==> 0 < g[j] <= max
    ensures k < n ==> g[k] == 0 || g[k] > max
    decreases n - i
  {
    if i == n || g[i] == 0 || g[i] > max then i else FirstBadGlobal(g, i + 1, n, max)
  }

  /** The global sizes are missing, or one of the first `n` is out of range. */
  predicate GlobalsRejected(globals: Option<seq<nat>>, n: nat, max: nat)
    requires globals.Some? ==> n <= |globals.value|
  {
    globals.None? || exists j :: 0 <= j < n && (globals.value[j] == 0 || globals.value[j] > max)
  }

  /** The checks of the constructor, in the order they run. */
  function NewChecks(ctx: nat, dev: Device, kern: Kernel, workDims: nat, globals: Option<seq<nat>>): (cs: seq<C.Check>)
    requires globals.Some? ==> workDims <= |globals.value|
    ensures |cs| == 5
  {
    [C.Check(dev.id !in kern.builtFor, CL_INVALID_PROGRAM_EXECUTABLE),
     C.Check(kern.context != ctx, CL_INVALID_CONTEXT),
     C.Check(!kern.allArgsSpecified, CL_INVALID_KERNEL_ARGS),
     C.Check(!(1 <= workDims <= dev.maxDims), CL_INVALID_WORK_DIMENSION),
     C.Check(GlobalsRejected(globals, workDims, dev.sizeTypeMax), CL_INVALID_GLOBAL_WORK_SIZE)]
  }

  /** The diagnostics of the constructor's checks, in the same order. */
  function NewMessages(globals: Option<seq<nat>>): (msgs: seq<D.Diagnostic>)
    ensures |msgs| == 5
  {
    [D.NotBuiltForDevice,
     D.DifferentContext,
     D.ArgsNotSpecified,
     D.WorkDimsOutOfRange,
     if globals.None? then D.InvalidGlobalSize else D.GlobalSizeOutOfRange]
  }

  /** The checks run in order, each failing one reporting its code and
      message. */
  function NotifyAll(b: C.Base, cs: seq<C.Check>, msgs: seq<D.Diagnostic>): (r: C.Base)
    requires |cs| == |msgs|
    ensures r.waitList == b.waitList
    decreases |cs|
  {
    if |cs| == 0 then b
    else
      var n := |cs| - 1;
      var p := NotifyAll(b, cs[..n], msgs[..n]);
      if cs[n].failed then C.NotifyError(p, cs[n].code, msgs[n]) else p
  }

  /** Running checks that report real errors from a fresh state leaves the
      code of the last failing one, and a consistent state that only
      grew. */
  lemma {:induction false} NotifyAllReports(b: C.Base, cs: seq<C.Check>, msgs: seq<D.Diagnostic>)
    requires |cs| == |msgs| && C.Consistent(b) && b.errCode == CL_SUCCESS
    requires forall k :: 0 <= k < |cs| ==> cs[k].code in ErrorCodes
    ensures var r := NotifyAll(b, cs, msgs);
      r.errCode == C.LastWins(cs) && C.Keeps(b, r) && C.Consistent(r)
    decreases |cs|
  {
    if |cs| > 0 {
      var n := |cs| - 1;
      var p := NotifyAll(b, cs[..n], msgs[..n]);
      NotifyAllReports(b, cs[..n], msgs[..n]);
      var r := NotifyAll(b, cs, msgs);
      assert C.Keeps(p, r) by {
        if cs[n].failed {
          assert r.diagnostics[..|p.diagnostics|] == p.diagnostics;
        }
      }
      C.KeepsSticky(b, p, r);
    }
  }

  /** The global sizes are rejected exactly when the scan for a bad one
      stops before the dimension count. */
  lemma GlobalsRejectedIff(g: seq<nat>, n: nat, max: nat)
    requires n <= |g|
    ensures GlobalsRejected(Some(g), n, max) <==> FirstBadGlobal(g, 0, n, max) < n
  {
    var k := FirstBadGlobal(g, 0, n, max);
    if k < n {
      assert g[k] == 0 || g[k] > max;
    }
  }

  /** The constructor. Each check is independent and the last failing one
      decides the code; the global sizes are recorded up to the first bad
      one, for as many entries as the caller's dimension count, even when
      that count itself was rejected. */
  function New(ctx: nat, dev: Device, kern: Kernel, workDims: nat, globals: Option<seq<nat>>): (r: Builder)
    requires globals.Some? ==> workDims <= |globals.value|
    ensures r.dev == dev && r.kern == kern
    ensures r.workDims == (if 1 <= workDims <= dev.maxDims then workDims else 0)
    ensures r.offsets == [] && r.locals == [] && r.base.waitList == []
    ensures globals.None? ==> r.globals == []
    ensures globals.Some? ==> r.globals == globals.value[..FirstBadGlobal(globals.value, 0, workDims, dev.sizeTypeMax)]
    ensures C.Consistent(r.base)
    ensures r.base.errCode == C.LastWins(NewChecks(ctx, dev, kern, workDims, globals))
  {
    var cs := NewChecks(ctx, dev, kern, workDims, globals);
    NewChecksReal(ctx, dev, kern, workDims, globals);
    NotifyAllReports(C.NewBase, cs, NewMessages(globals));
    Builder(NotifyAll(C.NewBase, cs, NewMessages(globals)), dev, kern, if 1 <= workDims <= dev.maxDims then workDims else 0,
            if globals.None? then [] else globals.value[..FirstBadGlobal(globals.value, 0, workDims, dev.sizeTypeMax)], [], [])
  }

  lemma NewChecksReal(ctx: nat, dev: Device, kern: Kernel, workDims: nat, globals: Option<seq<nat>>)
    requires globals.Some? ==> workDims <= |globals.value|
    ensures forall k :: 0 <= k < 5 ==> NewChecks(ctx, dev, kern, workDims, globals)[k].code in ErrorCodes
  {
    var cs := NewChecks(ctx, dev, kern, workDims, globals);
    assert cs[0].code == CL_INVALID_PROGRAM_EXECUTABLE && cs[1].code == CL_INVALID_CONTEXT;
    assert cs[2].code == CL_INVALID_KERNEL_ARGS && cs[3].code == CL_INVALID_WORK_DIMENSION;
    assert cs[4].code == CL_INVALID_GLOBAL_WORK_SIZE;
  }

  lemma LastWinsOfFive(cs: seq<C.Check>)
    requires |cs| == 5
    ensures C.LastWins(cs) ==
      if cs[4].failed then cs[4].code else if cs[3].failed then cs[3].code else if cs[2].failed then cs[2].code
      else if cs[1].failed then cs[1].code else if cs[0].failed then cs[0].code else CL_SUCCESS
  {
    assert cs == cs[..4] + [cs[4]];
    C.LastWinsSnoc(cs[..4], cs[4]);
    assert cs[..4] == cs[..3] + [cs[3]];
    C.LastWinsSnoc(cs[..3], cs[3]);
    assert cs[..3] == cs[..2] + [cs[2]];
    C.LastWinsSnoc(cs[..2], cs[2]);
    assert cs[..2] == cs[..1] + [cs[1]];
    C.LastWinsSnoc(cs[..1], cs[1]);
    assert cs[..1] == [] + [cs[0]];
    C.LastWinsSnoc([], cs[0]);
  }

  /** How many dimensions the setters can read: the recorded dimension count,
      cut short when the constructor stopped at a bad global size. */
  function Readable(nb: Builder): (m: nat)
    ensures m <= nb.workDims && m <= |nb.globals|
    ensures m == nb.workDims || m == |nb.globals|
  {
    if nb.workDims <= |nb.globals| then nb.workDims else |nb.globals|
  }

  /** The first offset among `o[i..m]` that shifts its dimension past the
      device's `size_t` maximum, or `m`. */
  function FirstBadOffset(o: seq<nat>, g: seq<nat>, i: nat, m: nat, max: nat): (k: nat)
    requires i <= m <= |o| && m <= |g|
    ensures i <= k <= m
    ensures forall j :: i <= j < k ==> o[j] + g[j] <= max
    ensures k < m ==> o[k] + g[k] > max
    decreases m - i
  {
    if i == m || o[i] + g[i] > max then i else FirstBadOffset(o, g, i + 1, m, max)
  }

  function Zeros(n: nat): (z: seq<nat>)
    ensures |z| == n && forall j :: 0 <= j < n ==> z[j] == 0
  {
    seq(n, _ => 0)
  }

  /** `SetGlobalWorkOffset`: skipped without a valid dimension count or
      global sizes; a null offset list means all zeros; otherwise offsets
      are appended up to the first one whose dimension would end past the
      device's `size_t` maximum. */
  function SetGlobalWorkOffset(nb: Builder, offsets: Option<seq<nat>>): (r: Builder)
    requires offsets.Some? ==> nb.workDims <= |offsets.value|
    ensures C.Keeps(nb.base, r.base) && r.base.waitList == nb.base.waitList
    ensures r == nb.(base := r.base, offsets := r.offsets)
    ensures nb.workDims == 0 || |nb.globals| == 0 ==> r == nb
    ensures nb.workDims > 0 && |nb.globals| > 0 && offsets.None? ==> r == nb.(offsets := Zeros(nb.workDims))
    ensures r.base.diagnostics != nb.base.diagnostics <==>
      nb.workDims > 0 && |nb.globals| > 0 && offsets.Some?
      && exists j :: 0 <= j < Readable(nb) && offsets.value[j] + nb.globals[j] > nb.dev.sizeTypeMax
    ensures r.base.diagnostics != nb.base.diagnostics ==> r.base.errCode == CL_INVALID_GLOBAL_OFFSET
    ensures nb.workDims > 0 && |nb.globals| > 0 && offsets.Some? ==>
      && |nb.offsets| <= |r.offsets| <= |nb.offsets| + Readable(nb)
      && r.offsets[..|nb.offsets|] == nb.offsets
      && forall j :: |nb.offsets| <= j < |r.offsets| ==>
           r.offsets[j] == offsets.value[j - |nb.offsets|]
           && r.offsets[j] + nb.globals[j - |nb.offsets|] <= nb.dev.sizeTypeMax
  {
    if nb.workDims == 0 || |nb.globals| == 0 then nb
    else if offsets.None? then nb.(offsets := Zeros(nb.workDims))
    else
      var m := Readable(nb);
      var k := FirstBadOffset(offsets.value, nb.globals, 0, m, nb.dev.sizeTypeMax);
      var b := if k < m then C.NotifyError(nb.base, CL_INVALID_GLOBAL_OFFSET, D.OffsetOutOfRange)
               else nb.base;
      nb.(base := b, offsets := nb.offsets + offsets.value[..k])
  }

  /** The first offset among `o[i..m]` whose `size_t` sum with its global
      size, wrapped modulo 2^64, exceeds the maximum, or `m`. */
  function FirstBadOffsetAsWritten(o: seq<nat>, g: seq<nat>, i: nat, m: nat, max: nat): (k: nat)
    requires i <= m <= |o| && m <= |g|
    ensures i <= k <= m
    ensures forall j :: i <= j < k ==> (o[j] + g[j]) % C.SizeSpan <= max
    ensures k < m ==> (o[k] + g[k]) % C.SizeSpan > max
    decreases m - i
  {
    if i == m || (o[i] + g[i]) % C.SizeSpan > max then i else FirstBadOffsetAsWritten(o, g, i + 1, m, max)
  }

  /** `SetGlobalWorkOffset` as written: `GlobalWorkOffsets[I] +
      GlobalWorkSizes[I]` is a `size_t` sum and wraps before the comparison
      with the device's maximum. */
  function SetGlobalWorkOffsetAsWritten(nb: Builder, offsets: Option<seq<nat>>): (r: Builder)
    requires offsets.Some? ==> nb.workDims <= |offsets.value|
    ensures r == nb.(base := r.base, offsets := r.offsets)
    ensures r.base.diagnostics != nb.base.diagnostics <==>
      nb.workDims > 0 && |nb.globals| > 0 && offsets.Some?
      && exists j :: 0 <= j < Readable(nb) && (offsets.value[j] + nb.globals[j]) % C.SizeSpan > nb.dev.sizeTypeMax
    ensures nb.workDims > 0 && |nb.globals| > 0 && offsets.Some? ==>
      && |nb.offsets| <= |r.offsets| <= |nb.offsets| + Readable(nb)
      && r.offsets[..|nb.offsets|] == nb.offsets
      && forall j :: |nb.offsets| <= j < |r.offsets| ==>
        r.offsets[j] == offsets.value[j - |nb.offsets|]
        && (r.offsets[j] + nb.globals[j - |nb.offsets|]) % C.SizeSpan <= nb.dev.sizeTypeMax
  {
    if nb.workDims == 0 || |nb.globals| == 0 then nb
    else if offsets.None? then nb.(offsets := Zeros(nb.workDims))
    else
      var m := Readable(nb);
      var k := FirstBadOffsetAsWritten(offsets.value, nb.globals, 0, m, nb.dev.sizeTypeMax);
      var b := if k < m then C.NotifyError(nb.base, CL_INVALID_GLOBAL_OFFSET, D.OffsetOutOfRange)
               else nb.base;
      nb.(base := b, offsets := nb.offsets + offsets.value[..k])
  }

  /** While no offset's sum reaches 2^64 the setter as written and the
      corrected one agree. */
  lemma {:induction false} OffsetAgreesWithoutWrap(o: seq<nat>, g: seq<nat>, i: nat, m: nat, max: nat)
    requires i <= m <= |o| && m <= |g|
    requires forall j :: i <= j < m ==> o[j] + g[j] < C.SizeSpan
    ensures FirstBadOffsetAsWritten(o, g, i, m, max) == FirstBadOffset(o, g, i, m, max)
    decreases m - i
  {
    if i < m {
      assert (o[i] + g[i]) % C.SizeSpan == o[i] + g[i];
      if o[i] + g[i] <= max {
        OffsetAgreesWithoutWrap(o, g, i + 1, m, max);
      }
    }
  }

  /** Without a sum reaching 2^64 the setter as written is the corrected one. */
  lemma SetGlobalWorkOffsetAgrees(nb: Builder, offsets: Option<seq<nat>>)
    requires offsets.Some? ==> nb.workDims <= |offsets.value|
    requires offsets.Some? ==> forall j :: 0 <= j < Readable(nb) ==> offsets.value[j] + nb.globals[j] < C.SizeSpan
    ensures SetGlobalWorkOffsetAsWritten(nb, offsets) == SetGlobalWorkOffset(nb, offsets)
  {
    if nb.workDims > 0 && |nb.globals| > 0 && offsets.Some? {
      OffsetAgreesWithoutWrap(offsets.value, nb.globals, 0, Readable(nb), nb.dev.sizeTypeMax);
    }
  }

  /** As written, an offset whose dimension ends exactly at 2^64 wraps to 0
      and is accepted, whatever the device's maximum; the corrected setter
      refuses it with `CL_INVALID_GLOBAL_OFFSET`. */
  lemma OffsetWrapsAsWritten(nb: Builder)
    requires nb.workDims == 1 && |nb.globals| == 1 && 0 < nb.globals[0] < C.SizeSpan
    requires nb.dev.sizeTypeMax < C.SizeSpan
    ensures var o := Some([C.SizeSpan - nb.globals[0]]);
      && SetGlobalWorkOffsetAsWritten(nb, o) == nb.(offsets := nb.offsets + [C.SizeSpan - nb.globals[0]])
      && SetGlobalWorkOffset(nb, o).base.errCode == CL_INVALID_GLOBAL_OFFSET
      && SetGlobalWorkOffset(nb, o).offsets == nb.offsets
  {
    var o := [C.SizeSpan - nb.globals[0]];
    assert (o[0] + nb.globals[0]) % C.SizeSpan == 0;
    assert FirstBadOffsetAsWritten(o, nb.globals, 0, 1, nb.dev.sizeTypeMax) == 1;
    assert FirstBadOffset(o, nb.globals, 0, 1, nb.dev.sizeTypeMax) == 0;
    assert o[..1] == o && o[..0] == [];
  }

  /** The checks one local size must pass: the device's per-dimension
      limit, dividing the global size, and the kernel's required size. */
  predicate LocalOk(dev: Device, kern: Kernel, globals: seq<nat>, l: seq<nat>, j: nat)
    requires ValidKernel(kern) && j < |dev.maxItemSizes| && j < |globals| && j < |l| && l[j] > 0
  {
    && l[j] <= dev.maxItemSizes[j]
    && globals[j] % l[j] == 0
    && !(kern.requiresSizes && (j >= 3 || kern.requiredSizes[j] != l[j]))
  }

  /** Every dimension from `i` to `m` passes. */
  predicate StepsOk(dev: Device, kern: Kernel, globals: seq<nat>, l: seq<nat>, i: nat, m: nat)
    requires ValidKernel(kern) && m <= |dev.maxItemSizes| && m <= |globals| && m <= |l|
    requires forall j :: 0 <= j < m ==> l[j] > 0
  {
    forall j :: i <= j < m ==> LocalOk(dev, kern, globals, l, j)
  }

  lemma StepsOkCons(dev: Device, kern: Kernel, globals: seq<nat>, l: seq<nat>, i: nat, m: nat)
    requires ValidKernel(kern) && i < m <= |dev.maxItemSizes| && m <= |globals| && m <= |l|
    requires forall j :: 0 <= j < m ==> l[j] > 0
    ensures StepsOk(dev, kern, globals, l, i, m) <==>
      LocalOk(dev, kern, globals, l, i) && StepsOk(dev, kern, globals, l, i + 1, m)
  {
  }

  lemma ProductStep(size: nat, l: seq<nat>, i: nat, m: nat)
    requires i < m <= |l|
    ensures size * DI.Product(l[i..m]) == (size * l[i]) * DI.Product(l[i + 1..m])
  {
    assert l[i..m][1..] == l[i + 1..m];
    var p := DI.Product(l[i + 1..m]);
    assert DI.Product(l[i..m]) == l[i] * p;
    assert size * (l[i] * p) == (size * l[i]) * p;
  }


  /** The well-formed builders the local-size setter works on. */
  predicate LocalsReady(nb: Builder, l: seq<nat>) {
    && ValidKernel(nb.kern) && ValidDevice(nb.dev)
    && nb.workDims <= nb.dev.maxDims && nb.workDims <= |l|
    && forall j :: 0 <= j < nb.workDims ==> l[j] > 0
  }

  /** What the loop records for dimension `j`: the local size, or, as
      written, the index `j` itself. */
  function Recorded(l: seq<nat>, i: nat, m: nat, asWritten: bool): (r: seq<nat>)
    requires i <= m <= |l|
    ensures |r| == m - i
    ensures forall j :: 0 <= j < m - i ==> r[j] == if asWritten then i + j else l[i + j]
  {
    seq(m - i, j requires 0 <= j < m - i => if asWritten then i + j else l[i + j])
  }

  /** The loop of `SetLocalWorkSize` from dimension `i`, with the work-group
      size accumulated so far; the first failing check ends it early, and
      the total is compared with the device limit after the loop. */
  function LocalsFrom(nb: Builder, l: seq<nat>, i: nat, size: nat, asWritten: bool): (r: Builder)
    requires LocalsReady(nb, l) && i <= Readable(nb)
    ensures C.Keeps(nb.base, r.base) && r.base.waitList == nb.base.waitList
    ensures r == nb.(base := r.base, locals := r.locals)
    ensures r.base.diagnostics != nb.base.diagnostics ==> r.base.errCode == CL_INVALID_WORK_GROUP_SIZE
    decreases Readable(nb) - i
  {
    var m := Readable(nb);
    if i == m then
      if size > nb.dev.maxGroupSize then
        nb.(base := C.NotifyError(nb.base, CL_INVALID_WORK_GROUP_SIZE, D.GroupSizeExceeds))
      else nb
    else if !LocalOk(nb.dev, nb.kern, nb.globals, l, i) then
      var msg :=
        if l[i] > nb.dev.maxItemSizes[i] then D.GroupSizeExceeds
        else if nb.globals[i] % l[i] != 0 then D.GroupSizeNotDividing
        else D.GroupSizeMismatch;
      nb.(base := C.NotifyError(nb.base, CL_INVALID_WORK_GROUP_SIZE, msg))
    else
      var next := nb.(locals := nb.locals + [if asWritten then i else l[i]]);
      assert Readable(next) == m;
      LocalsFrom(next, l, i + 1, size * l[i], asWritten)
  }

  /** The loop from dimension `i` reports nothing exactly when every
      remaining dimension passes and the accumulated work-group size stays
      within the device limit. */
  lemma {:induction false} LocalsFromAccepts(nb: Builder, l: seq<nat>, i: nat, size: nat, asWritten: bool)
    requires LocalsReady(nb, l) && i <= Readable(nb)
    ensures LocalsFrom(nb, l, i, size, asWritten).base.diagnostics == nb.base.diagnostics <==>
      StepsOk(nb.dev, nb.kern, nb.globals, l, i, Readable(nb))
      && size * DI.Product(l[i..Readable(nb)]) <= nb.dev.maxGroupSize
    decreases Readable(nb) - i
  {
    var m := Readable(nb);
    var r := LocalsFrom(nb, l, i, size, asWritten);
    if i == m {
      LocalsFromEnd(nb, l, size, asWritten);
    } else if !LocalOk(nb.dev, nb.kern, nb.globals, l, i) {
      LocalsFromFails(nb, l, i, size, asWritten);
    } else {
      var next := nb.(locals := nb.locals + [if asWritten then i else l[i]]);
      assert Readable(next) == m;
      LocalsFromAccepts(next, l, i + 1, size * l[i], asWritten);
      AcceptsNext(nb, l, i, size, asWritten);
    }
  }

  /** The inductive step of `LocalsFromAccepts`: a passing dimension hands
      the question to the next one with the size multiplied in. */
  lemma AcceptsNext(nb: Builder, l: seq<nat>, i: nat, size: nat, asWritten: bool)
    requires LocalsReady(nb, l) && i < Readable(nb)
    requires LocalOk(nb.dev, nb.kern, nb.globals, l, i)
    requires var next := nb.(locals := nb.locals + [if asWritten then i else l[i]]);
      LocalsFrom(next, l, i + 1, size * l[i], asWritten).base.diagnostics == next.base.diagnostics <==>
      StepsOk(nb.dev, nb.kern, nb.globals, l, i + 1, Readable(nb))
      && (size * l[i]) * DI.Product(l[i + 1..Readable(nb)]) <= nb.dev.maxGroupSize
    ensures LocalsFrom(nb, l, i, size, asWritten).base.diagnostics == nb.base.diagnostics <==>
      StepsOk(nb.dev, nb.kern, nb.globals, l, i, Readable(nb))
      && size * DI.Product(l[i..Readable(nb)]) <= nb.dev.maxGroupSize
  {
    var m := Readable(nb);
    var next := nb.(locals := nb.locals + [if asWritten then i else l[i]]);
    assert Readable(next) == m;
    var r := LocalsFrom(nb, l, i, size, asWritten);
    assert r == LocalsFrom(next, l, i + 1, size * l[i], asWritten);
    ProductStep(size, l, i, m);
    StepsOkCons(nb.dev, nb.kern, nb.globals, l, i, m);
    AcceptStep(r.base.diagnostics == nb.base.diagnostics, StepsOk(nb.dev, nb.kern, nb.globals, l, i, m),
               StepsOk(nb.dev, nb.kern, nb.globals, l, i + 1, m),
               size * DI.Product(l[i..m]), (size * l[i]) * DI.Product(l[i + 1..m]), nb.dev.maxGroupSize);
  }

  lemma LocalsFromEnd(nb: Builder, l: seq<nat>, size: nat, asWritten: bool)
    requires LocalsReady(nb, l)
    ensures var m := Readable(nb);
      LocalsFrom(nb, l, m, size, asWritten).base.diagnostics == nb.base.diagnostics <==>
      StepsOk(nb.dev, nb.kern, nb.globals, l, m, m) && size * DI.Product(l[m..m]) <= nb.dev.maxGroupSize
  {
    var m := Readable(nb);
    assert l[m..m] == [];
  }

  lemma LocalsFromFails(nb: Builder, l: seq<nat>, i: nat, size: nat, asWritten: bool)
    requires LocalsReady(nb, l) && i < Readable(nb)
    requires !LocalOk(nb.dev, nb.kern, nb.globals, l, i)
    ensures LocalsFrom(nb, l, i, size, asWritten).base.diagnostics != nb.base.diagnostics
    ensures !StepsOk(nb.dev, nb.kern, nb.globals, l, i, Readable(nb))
  {
    assert |LocalsFrom(nb, l, i, size, asWritten).base.diagnostics| > |nb.base.diagnostics|;
  }

  lemma AcceptStep(same: bool, ok: bool, okRest: bool, total: nat, totalRest: nat, max: nat)
    requires same <==> okRest && totalRest <= max
    requires ok <==> okRest
    requires total == totalRest
    ensures same <==> ok && total <= max
  {
  }

  /** When the loop reports nothing it has recorded one entry per
      remaining dimension. */
  lemma {:induction false} LocalsFromRecords(nb: Builder, l: seq<nat>, i: nat, size: nat, asWritten: bool)
    requires LocalsReady(nb, l) && i <= Readable(nb)
    ensures LocalsFrom(nb, l, i, size, asWritten).base.diagnostics == nb.base.diagnostics ==>
      LocalsFrom(nb, l, i, size, asWritten).locals == nb.locals + Recorded(l, i, Readable(nb), asWritten)
    decreases Readable(nb) - i
  {
    var m := Readable(nb);
    var r := LocalsFrom(nb, l, i, size, asWritten);
    if i == m {
      assert Recorded(l, i, m, asWritten) == [];
    } else if LocalOk(nb.dev, nb.kern, nb.globals, l, i) {
      var next := nb.(locals := nb.locals + [if asWritten then i else l[i]]);
      assert Readable(next) == m;
      assert r == LocalsFrom(next, l, i + 1, size * l[i], asWritten);
      LocalsFromRecords(next, l, i + 1, size * l[i], asWritten);
      assert Recorded(l, i, m, asWritten) == [if asWritten then i else l[i]] + Recorded(l, i + 1, m, asWritten);
    }
  }

  /** The local sizes a launch accepts over its readable dimensions. */
  predicate LocalsAccepted(nb: Builder, l: seq<nat>)
    requires LocalsReady(nb, l)
  {
    StepsOk(nb.dev, nb.kern, nb.globals, l, 0, Readable(nb))
    && DI.Product(l[..Readable(nb)]) <= nb.dev.maxGroupSize
  }

  /** `SetLocalWorkSize`, recording the accepted local sizes. A null list is
      an error only for a kernel that requires a work-group size. */
  function SetLocalWorkSize(nb: Builder, locals: Option<seq<nat>>): (r: Builder)
    requires locals.Some? ==> LocalsReady(nb, locals.value)
    ensures C.Keeps(nb.base, r.base) && r.base.waitList == nb.base.waitList
    ensures r == nb.(base := r.base, locals := r.locals)
    ensures r.base.diagnostics != nb.base.diagnostics ==> r.base.errCode == CL_INVALID_WORK_GROUP_SIZE
    ensures locals.None? ==>
      && r.locals == nb.locals
      && (r.base.diagnostics != nb.base.diagnostics <==> nb.kern.requiresSizes)
    ensures locals.Some? ==>
      (r.base.diagnostics == nb.base.diagnostics <==> LocalsAccepted(nb, locals.value))
    ensures locals.Some? && LocalsAccepted(nb, locals.value) ==>
      r.locals == nb.locals + locals.value[..Readable(nb)]
  {
    if locals.None? then
      if nb.kern.requiresSizes then nb.(base := C.NotifyError(nb.base, CL_INVALID_WORK_GROUP_SIZE, D.FixedLocalSizeRequired))
      else nb
    else
      var r := LocalsFrom(nb, locals.value, 0, 1, false);
      LocalsFromAccepts(nb, locals.value, 0, 1, false);
      LocalsFromRecords(nb, locals.value, 0, 1, false);
      assert locals.value[0..Readable(nb)] == locals.value[..Readable(nb)];
      assert Recorded(locals.value, 0, Readable(nb), false) == locals.value[..Readable(nb)];
      r
  }

  /** `SetLocalWorkSize` as written: an accepted dimension records its index
      instead of its local size. */
  function SetLocalWorkSizeAsWritten(nb: Builder, locals: Option<seq<nat>>): (r: Builder)
    requires locals.Some? ==> LocalsReady(nb, locals.value)
    ensures C.Keeps(nb.base, r.base)
    ensures locals.Some? ==>
      (r.base.diagnostics == nb.base.diagnostics <==> LocalsAccepted(nb, locals.value))
    ensures locals.Some? && LocalsAccepted(nb, locals.value) ==>
      r.locals == nb.locals + Recorded(locals.value, 0, Readable(nb), true)
  {
    if locals.None? then
      if nb.kern.requiresSizes then nb.(base := C.NotifyError(nb.base, CL_INVALID_WORK_GROUP_SIZE, D.FixedLocalSizeRequired))
      else nb
    else
      assert locals.value[0..Readable(nb)] == locals.value[..Readable(nb)];
      LocalsFromAccepts(nb, locals.value, 0, 1, true);
      LocalsFromRecords(nb, locals.value, 0, 1, true);
      LocalsFrom(nb, locals.value, 0, 1, true)
  }

  /** `SetWaitList`: the shared wait-list setter. */
  function SetWaitList(nb: Builder, n: nat, evs: Option<seq<Option<E.Event>>>): (r: Builder)
    requires evs.Some? ==> n <= |evs.value|
    ensures C.Keeps(nb.base, r.base)
    ensures r == nb.(base := C.SetWaitList(nb.base, n, evs))
  {
    nb.(base := C.SetWaitList(nb.base, n, evs))
  }

  /** `Create`: no command once an error was recorded; otherwise the launch
      over the dimensions the three lists share. */
  function Create(nb: Builder): (r: C.Created)
    requires C.Consistent(nb.base)
    ensures r.command.None? <==> |nb.base.diagnostics| > 0
    ensures r.code == nb.base.errCode
    ensures r.command.Some? ==>
      && r.command.value.kind.NDRangeKernel?
      && r.command.value.kind.kernel == nb.kern.id
      && r.command.value.waitList == nb.base.waitList
      && !r.command.value.blocking
      && var dims := r.command.value.kind.dims;
         |dims| <= |nb.locals| && |dims| <= |nb.globals| && |dims| <= |nb.offsets|
         && forall j :: 0 <= j < |dims| ==> dims[j] == DI.Dim(nb.offsets[j], nb.globals[j], nb.locals[j])
  {
    if nb.base.errCode != CL_SUCCESS then C.Created(None, nb.base.errCode)
    else
      var dims := DI.NewDimensionInfo(nb.offsets, nb.globals, nb.locals);
      C.Created(Some(C.Command(C.NDRangeKernel(nb.kern.id, dims), nb.base.waitList, false)), CL_SUCCESS)
  }

  lemma {:induction false} ProductPositive(xs: seq<nat>)
    requires forall j :: 0 <= j < |xs| ==> xs[j] > 0
    ensures DI.Product(xs) > 0
  {
    if |xs| > 0 {
      ProductPositive(xs[1..]);
    }
  }

  /** The builders the two local-size lemmas start from: no error so far,
      offsets and global sizes set for every dimension, no local sizes yet,
      and local sizes the device and kernel accept. */
  predicate LaunchReady(nb: Builder, l: seq<nat>) {
    && LocalsReady(nb, l) && C.Consistent(nb.base) && nb.base.errCode == CL_SUCCESS
    && nb.workDims > 0 && |nb.globals| >= nb.workDims && |nb.offsets| >= nb.workDims
    && nb.locals == [] && LocalsAccepted(nb, l)
  }

  /** As written, the launch loses its local size: the recorded entries are
      the dimension indices, so the first is 0, the local work-item total
      is 0, and the launch counts as having no local size. */
  lemma LocalSizeLostAsWritten(nb: Builder, l: seq<nat>)
    requires LaunchReady(nb, l)
    ensures var c := Create(SetLocalWorkSizeAsWritten(nb, Some(l)));
      && c.command.Some?
      && |c.command.value.kind.dims| == nb.workDims
      && c.command.value.kind.dims[0].local == 0
      && !DI.IsLocalWorkGroupSizeSpecified(c.command.value.kind.dims)
  {
    var r := SetLocalWorkSizeAsWritten(nb, Some(l));
    assert Readable(nb) == nb.workDims;
    var dims := Create(r).command.value.kind.dims;
    assert |dims| == nb.workDims;
    DI.TotalsAreProducts(dims);
    assert DI.Locals(dims)[0] == 0;
  }

  /** With the local size recorded, the launch keeps the caller's local
      sizes in every dimension and has a local size whenever the device's
      work-group limit fits the 32-bit total. */
  lemma LocalSizeKept(nb: Builder, l: seq<nat>)
    requires LaunchReady(nb, l)
    ensures var c := Create(SetLocalWorkSize(nb, Some(l)));
      && c.command.Some?
      && |c.command.value.kind.dims| == nb.workDims
      && (forall j :: 0 <= j < nb.workDims ==> c.command.value.kind.dims[j].local == l[j])
      && (nb.dev.maxGroupSize < DI.UintModulus ==> DI.IsLocalWorkGroupSizeSpecified(c.command.value.kind.dims))
  {
    var r := SetLocalWorkSize(nb, Some(l));
    assert Readable(nb) == nb.workDims;
    var dims := Create(r).command.value.kind.dims;
    assert |dims| == nb.workDims;
    DI.TotalsAreProducts(dims);
    assert DI.Locals(dims) == l[..nb.workDims];
    ProductPositive(l[..nb.workDims]);
  }

  /** A one-dimensional launch of 8 work-items in groups of 4 on a device
      that allows it, through the host API's sequence of setters. */
  lemma LocalSizeExample()
    ensures var dev := Device(0, 3, 0xFFFF_FFFF, [1024, 1024, 1024], 1024);
      var kern := Kernel(7, {0}, 1, true, false, [0, 0, 0]);
      var nb := SetGlobalWorkOffset(New(1, dev, kern, 1, Some([8])), None);
      && Create(SetLocalWorkSize(nb, Some([4]))).command.Some?
      && Create(SetLocalWorkSize(nb, Some([4]))).command.value.kind.dims == [DI.Dim(0, 8, 4)]
      && Create(SetLocalWorkSizeAsWritten(nb, Some([4]))).command.Some?
      && Create(SetLocalWorkSizeAsWritten(nb, Some([4]))).command.value.kind.dims == [DI.Dim(0, 8, 0)]
  {
    var dev := Device(0, 3, 0xFFFF_FFFF, [1024, 1024, 1024], 1024);
    var kern := Kernel(7, {0}, 1, true, false, [0, 0, 0]);
    var n0 := New(1, dev, kern, 1, Some([8]));
    assert FirstBadGlobal([8], 0, 1, dev.sizeTypeMax) == 1;
    assert n0.globals == [8];
    LastWinsOfFive(NewChecks(1, dev, kern, 1, Some([8])));
    assert n0.base.errCode == CL_SUCCESS;
    var nb := SetGlobalWorkOffset(n0, None);
    assert nb.offsets == [0];
    assert LocalOk(dev, kern, [8], [4], 0);
    assert [4][..1] == [4];
    assert LocalsAccepted(nb, [4]);
    LocalSizeKept(nb, [4]);
    LocalSizeLostAsWritten(nb, [4]);
  }
}
