/** Commands and the builders that validate them before a command exists.
    A builder keeps a sticky error code: every failed check reports a
    diagnostic to the context and overwrites the code, so the last failure
    wins and nothing resets it; `Create` yields the command only when no
    check failed. This module holds the part every builder shares (the
    code, the wait list) and the read/write buffer builders of section 5.2.2
    of the OpenCL 1.1 specification, which differ only in direction. */
module Command {
  import opened Results
  import opened ClCodes
  import E = Event
  import DI = DimensionInfo
  import D = Diagnostics

  /** `size_t` on the host: 64 bits. */
  const SizeSpan: nat := 0x1_0000_0000_0000_0000

  /** A memory object; `isBuffer` tells buffers from the other kinds. */
  datatype MemObj = MemObj(id: nat, isBuffer: bool, size: nat)

  /** What a command does. Host pointers are addresses. */
  datatype Kind =
    | ReadBuffer(buffer: MemObj, host: nat, offset: nat, size: nat)
    | WriteBuffer(buffer: MemObj, host: nat, offset: nat, size: nat)
    | NDRangeKernel(kernel: nat, dims: seq<DI.Dim>)
    | NativeKernel(func: nat, args: nat, argsSize: nat, mappings: map<nat, int>)

  datatype Command = Command(kind: Kind, waitList: seq<E.Event>, blocking: bool)

  /** `Command::CanRun`: every event waited on has completed (or failed). */
  function AllCompleted(ws: seq<E.Event>): (r: bool)
    ensures r <==> forall j :: 0 <= j < |ws| ==> E.HasCompleted(ws[j])
  {
    if |ws| == 0 then true
    else
      assert forall j :: 1 <= j < |ws| ==> ws[1..][j - 1] == ws[j];
      E.HasCompleted(ws[0]) && AllCompleted(ws[1..])
  }

  predicate CanRun(c: Command) {
    AllCompleted(c.waitList)
  }

  /** `CommandBuilder::IsWaitListInconsistent`: some event waited on failed. */
  function HasErrored(ws: seq<E.Event>): (r: bool)
    ensures r <==> exists j :: 0 <= j < |ws| && E.IsError(ws[j])
  {
    if |ws| == 0 then false
    else
      assert forall j :: 1 <= j < |ws| ==> ws[1..][j - 1] == ws[j];
      E.IsError(ws[0]) || HasErrored(ws[1..])
  }

  // The state every builder shares.

  /** The error code, the diagnostics reported so far, and the wait list. */
  datatype Base = Base(errCode: int, diagnostics: seq<D.Diagnostic>, waitList: seq<E.Event>)

  const NewBase: Base := Base(CL_SUCCESS, [], [])

  /** `CommandBuilder::NotifyError`. */
  function NotifyError(b: Base, code: int, msg: D.Diagnostic): Base {
    b.(errCode := code, diagnostics := b.diagnostics + [msg])
  }

  /** The code is success exactly while nothing has been reported, and any
      other code is an OpenCL error. */
  predicate Consistent(b: Base) {
    (b.errCode == CL_SUCCESS <==> |b.diagnostics| == 0)
    && (b.errCode != CL_SUCCESS ==> b.errCode in ErrorCodes)
  }

  /** A builder step either leaves code and diagnostics alone or reports a
      new error; it never takes back a report. */
  predicate Keeps(b: Base, r: Base) {
    (r.errCode == b.errCode && r.diagnostics == b.diagnostics)
    || (r.errCode in ErrorCodes && |r.diagnostics| > |b.diagnostics|
        && r.diagnostics[..|b.diagnostics|] == b.diagnostics)
  }

  /** Steps compose, and a recorded error survives every later step. */
  lemma KeepsSticky(a: Base, b: Base, c: Base)
    requires Keeps(a, b) && Keeps(b, c)
    ensures Keeps(a, c)
    ensures Consistent(a) ==> Consistent(c)
    ensures a.errCode != CL_SUCCESS && Consistent(a) ==> c.errCode != CL_SUCCESS
  {
    if |b.diagnostics| > |a.diagnostics| && |c.diagnostics| > |b.diagnostics| {
      assert c.diagnostics[..|a.diagnostics|] == c.diagnostics[..|b.diagnostics|][..|a.diagnostics|];
    }
  }

  /** The code left by independent checks when each failure overwrites it. */
  datatype Check = Check(failed: bool, code: int)

  function LastWins(checks: seq<Check>): int {
    if |checks| == 0 then CL_SUCCESS
    else if checks[|checks| - 1].failed then checks[|checks| - 1].code
    else LastWins(checks[..|checks| - 1])
  }

  lemma LastWinsTwo(a: Check, b: Check)
    ensures LastWins([a, b]) == if b.failed then b.code else if a.failed then a.code else CL_SUCCESS
  {
    assert [a, b][..1] == [a];
    assert [a][..0] == [];
    assert LastWins([a]) == if a.failed then a.code else LastWins([]);
  }

  /** Appending a check: it decides if it failed, else the earlier ones do. */
  lemma LastWinsSnoc(cs: seq<Check>, c: Check)
    ensures LastWins(cs + [c]) == if c.failed then c.code else LastWins(cs)
  {
    assert (cs + [c])[..|cs|] == cs;
  }

  /** When every check reports a real error, the code stays success
      exactly when no check failed. */
  lemma {:induction false} LastWinsSuccess(cs: seq<Check>)
    requires forall k :: 0 <= k < |cs| ==> cs[k].code != CL_SUCCESS
    ensures LastWins(cs) == CL_SUCCESS <==> forall k :: 0 <= k < |cs| ==> !cs[k].failed
    decreases |cs|
  {
    if |cs| > 0 {
      LastWinsSuccess(cs[..|cs| - 1]);
    }
  }

  // Wait lists.

  /** The index of the first null entry among `evs[i..n]`, or `n`. */
  function FirstNull(evs: seq<Option<E.Event>>, i: nat, n: nat): (k: nat)
    requires i <= n <= |evs|
    ensures i <= k <= n
    ensures forall j :: i <= j < k ==> evs[j].Some?
    ensures k < n ==> evs[k].None?
    decreases n - i
  {
    if i == n || evs[i].None? then i else FirstNull(evs, i + 1, n)
  }

  function Values(xs: seq<Option<E.Event>>): (r: seq<E.Event>)
    requires forall j :: 0 <= j < |xs| ==> xs[j].Some?
    ensures |r| == |xs| && forall j :: 0 <= j < |xs| ==> xs[j] == Some(r[j])
  {
    seq(|xs|, j requires 0 <= j < |xs| => xs[j].value)
  }

  /** The loop of `CommandBuilder::SetWaitList` from entry `i`: events are
      pushed one by one, and a null entry stops the loop with an error,
      leaving the earlier entries pushed. */
  function AddEvents(b: Base, evs: seq<Option<E.Event>>, i: nat, n: nat): (r: Base)
    requires i <= n <= |evs|
    ensures var k := FirstNull(evs, i, n);
      r == if k == n then b.(waitList := b.waitList + Values(evs[i..n]))
           else NotifyError(b.(waitList := b.waitList + Values(evs[i..k])), CL_INVALID_EVENT_WAIT_LIST, D.InvalidEvent)
    decreases n - i
  {
    if i == n then
      assert evs[i..n] == [];
      b
    else if evs[i].None? then
      assert evs[i..i] == [];
      NotifyError(b, CL_INVALID_EVENT_WAIT_LIST, D.InvalidEvent)
    else
      var k := FirstNull(evs, i, n);
      ValuesCons(b.waitList, evs, i, k);
      AddEvents(b.(waitList := b.waitList + [evs[i].value]), evs, i + 1, n)
  }

  lemma ValuesCons(w: seq<E.Event>, evs: seq<Option<E.Event>>, i: nat, k: nat)
    requires i < k <= |evs|
    requires forall j :: i <= j < k ==> evs[j].Some?
    ensures w + Values(evs[i..k]) == (w + [evs[i].value]) + Values(evs[i + 1..k])
  {
    assert evs[i..k] == [evs[i]] + evs[i + 1..k];
    assert Values(evs[i..k]) == [evs[i].value] + Values(evs[i + 1..k]);
  }

  /** The cases `SetWaitList` rejects: a count without a list, a list
      without a count, or a null entry among the first `n`. */
  predicate WaitListRejected(n: nat, evs: Option<seq<Option<E.Event>>>)
    requires evs.Some? ==> n <= |evs.value|
  {
    (n > 0 && evs.None?) || (n == 0 && evs.Some?)
    || (evs.Some? && exists j :: 0 <= j < n && evs.value[j].None?)
  }

  /** `CommandBuilder::SetWaitList`. */
  function SetWaitList(b: Base, n: nat, evs: Option<seq<Option<E.Event>>>): (r: Base)
    requires evs.Some? ==> n <= |evs.value|
    ensures Keeps(b, r)
    ensures WaitListRejected(n, evs) <==> r.diagnostics != b.diagnostics
    ensures WaitListRejected(n, evs) ==> r.errCode == CL_INVALID_EVENT_WAIT_LIST
    ensures evs.None? ==> r.waitList == b.waitList
    ensures evs.Some? && n > 0 ==>
      var k := FirstNull(evs.value, 0, n);
      r.waitList == b.waitList + Values(evs.value[..k])
  {
    if n > 0 && evs.None? then NotifyError(b, CL_INVALID_EVENT_WAIT_LIST, D.ExpectedEventsWaitList)
    else if n == 0 && evs.Some? then NotifyError(b, CL_INVALID_EVENT_WAIT_LIST, D.UnexpectedEventsWaitList)
    else if evs.None? then b
    else
      var r := AddEvents(b, evs.value, 0, n);
      assert evs.value[0..n] == evs.value[..n];
      assert evs.value[0..FirstNull(evs.value, 0, n)] == evs.value[..FirstNull(evs.value, 0, n)];
      r
  }

  // Read and write buffer builders.

  datatype Direction = Read | Write

  /** `EnqueueReadBufferBuilder` (direction `Read`: `buffer` is the source,
      `host` the sink) and `EnqueueWriteBufferBuilder` (`Write`: the other
      way round). */
  datatype CopyBuilder = CopyBuilder(dir: Direction, base: Base, buffer: Option<MemObj>, host: Option<nat>,
                                     blocking: bool, offset: nat, size: nat)

  /** The copy area lies inside the buffer. */
  predicate InBounds(cb: CopyBuilder) {
    cb.buffer.Some? ==> cb.offset + cb.size <= cb.buffer.value.size
  }

  /** What every builder reachable through the operations below satisfies:
      a consistent code, a buffer and a host pointer unless an error was
      recorded, and a copy area inside the buffer. */
  predicate Ready(cb: CopyBuilder) {
    Consistent(cb.base)
    && (cb.base.errCode == CL_SUCCESS ==> cb.buffer.Some? && cb.host.Some?)
    && (cb.buffer.Some? ==> cb.buffer.value.isBuffer)
    && InBounds(cb)
  }

  /** The constructors: a null or non-buffer memory object and a null host
      pointer are checked independently. */
  function NewCopyBuilder(dir: Direction, mem: Option<MemObj>, host: Option<nat>): (r: CopyBuilder)
    ensures Ready(r) && r.dir == dir && r.host == host
    ensures r.base.waitList == [] && !r.blocking && r.offset == 0 && r.size == 0
    ensures r.buffer.Some? <==> mem.Some? && mem.value.isBuffer
    ensures r.buffer.Some? ==> r.buffer == mem
    ensures r.base.errCode == LastWins([Check(r.buffer.None?, CL_INVALID_MEM_OBJECT), Check(host.None?, CL_INVALID_VALUE)])
  {
    var b0 := NewBase;
    var b1 :=
      if mem.None? then NotifyError(b0, CL_INVALID_MEM_OBJECT, if dir == Read then D.ReadSourceNull else D.WriteTargetNull)
      else if !mem.value.isBuffer then
        NotifyError(b0, CL_INVALID_MEM_OBJECT, if dir == Read then D.ReadSourceNotBuffer else D.WriteTargetNotBuffer)
      else b0;
    var b2 :=
      if host.None? then
        NotifyError(b1, CL_INVALID_VALUE, if dir == Read then D.DataSinkNull else D.DataSourceNull)
      else b1;
    var buffer := if mem.Some? && mem.value.isBuffer then mem else None;
    LastWinsTwo(Check(buffer.None?, CL_INVALID_MEM_OBJECT), Check(host.None?, CL_INVALID_VALUE));
    CopyBuilder(dir, b2, buffer, host, false, 0, 0)
  }

  /** `SetBlocking`: blocking on a wait list that holds a failed event is an
      error, and then the flag is left as it was. */
  function SetBlocking(cb: CopyBuilder, blocking: bool): (r: CopyBuilder)
    ensures Keeps(cb.base, r.base) && (Ready(cb) ==> Ready(r))
    ensures r.dir == cb.dir && r.buffer == cb.buffer && r.host == cb.host && r.offset == cb.offset && r.size == cb.size
    ensures r.base.waitList == cb.base.waitList
    ensures r.base.diagnostics != cb.base.diagnostics <==> blocking && HasErrored(cb.base.waitList)
    ensures blocking && HasErrored(cb.base.waitList) ==>
      r.base.errCode == CL_EXEC_STATUS_ERROR_FOR_EVENTS_IN_WAIT_LIST && r.blocking == cb.blocking
    ensures !(blocking && HasErrored(cb.base.waitList)) ==> r.blocking == blocking
  {
    if blocking && HasErrored(cb.base.waitList) then
      cb.(base := NotifyError(cb.base, CL_EXEC_STATUS_ERROR_FOR_EVENTS_IN_WAIT_LIST, D.InconsistentWaitList))
    else cb.(blocking := blocking)
  }

  /** `SetCopyArea`: nothing happens without a buffer; an area reaching past
      the buffer's end is rejected; otherwise the area is recorded. The end
      of the area is compared as an exact number. */
  function SetCopyArea(cb: CopyBuilder, offset: nat, size: nat): (r: CopyBuilder)
    requires offset < SizeSpan && size < SizeSpan
    ensures Keeps(cb.base, r.base) && (Ready(cb) ==> Ready(r))
    ensures r.dir == cb.dir && r.buffer == cb.buffer && r.host == cb.host && r.blocking == cb.blocking
    ensures r.base.waitList == cb.base.waitList
    ensures InBounds(cb) ==> InBounds(r)
    ensures r.base.diagnostics != cb.base.diagnostics <==> cb.buffer.Some? && offset + size > cb.buffer.value.size
    ensures r.base.diagnostics != cb.base.diagnostics ==> r.base.errCode == CL_INVALID_VALUE
    ensures cb.buffer.Some? && offset + size <= cb.buffer.value.size ==> r.offset == offset && r.size == size
  {
    if cb.buffer.None? then cb
    else if offset + size > cb.buffer.value.size then cb.(base := NotifyError(cb.base, CL_INVALID_VALUE, if cb.dir == Read then D.ReadOutOfBounds else D.WriteExceedsCapacity))
    else cb.(offset := offset, size := size)
  }

  /** `SetCopyArea` as written: `Offset + Size` is a `size_t` sum and wraps
      before the comparison. */
  function SetCopyAreaAsWritten(cb: CopyBuilder, offset: nat, size: nat): (r: CopyBuilder)
    requires offset < SizeSpan && size < SizeSpan
    ensures Keeps(cb.base, r.base) && (Consistent(cb.base) ==> Consistent(r.base))
    ensures r.dir == cb.dir && r.buffer == cb.buffer && r.host == cb.host && r.blocking == cb.blocking
    ensures r.base.waitList == cb.base.waitList
    ensures r.base.diagnostics != cb.base.diagnostics <==>
      cb.buffer.Some? && (offset + size) % SizeSpan > cb.buffer.value.size
    ensures r.base.diagnostics != cb.base.diagnostics ==> r.base.errCode == CL_INVALID_VALUE
    ensures cb.buffer.Some? && (offset + size) % SizeSpan <= cb.buffer.value.size ==> r.offset == offset && r.size == size
  {
    if cb.buffer.None? then cb
    else if (offset + size) % SizeSpan > cb.buffer.value.size then cb.(base := NotifyError(cb.base, CL_INVALID_VALUE, if cb.dir == Read then D.ReadOutOfBounds else D.WriteExceedsCapacity))
    else cb.(offset := offset, size := size)
  }

  /** As written, an area whose end passes 2^64 wraps to a small number and
      is accepted although it lies far outside the buffer: reading 2 bytes
      at offset 2^64 - 1 of a 16-byte buffer is let through. */
  lemma CopyAreaWrapsAsWritten(dir: Direction, id: nat, host: nat)
    ensures var cb := NewCopyBuilder(dir, Some(MemObj(id, true, 16)), Some(host));
      var r := SetCopyAreaAsWritten(cb, SizeSpan - 1, 2);
      && r.base == cb.base && r.offset == SizeSpan - 1 && r.size == 2
      && !InBounds(r)
      && SetCopyArea(cb, SizeSpan - 1, 2).base.errCode == CL_INVALID_VALUE
  {
  }

  /** The wait-list setter of the copy builders: the shared one, followed by
      the blocking check, since a blocking command may have been asked for
      before the list was known. */
  function CopySetWaitList(cb: CopyBuilder, n: nat, evs: Option<seq<Option<E.Event>>>): (r: CopyBuilder)
    requires evs.Some? ==> n <= |evs.value|
    ensures Keeps(cb.base, r.base) && (Ready(cb) ==> Ready(r))
    ensures r.dir == cb.dir && r.buffer == cb.buffer && r.host == cb.host && r.offset == cb.offset && r.size == cb.size
    ensures r.blocking == cb.blocking
    ensures r.base.waitList == SetWaitList(cb.base, n, evs).waitList
    ensures cb.blocking && HasErrored(r.base.waitList) ==> r.base.errCode == CL_EXEC_STATUS_ERROR_FOR_EVENTS_IN_WAIT_LIST
    ensures !(cb.blocking && HasErrored(r.base.waitList)) ==> r.base == SetWaitList(cb.base, n, evs)
  {
    var b := SetWaitList(cb.base, n, evs);
    if cb.blocking && HasErrored(b.waitList) then
      var b2 := NotifyError(b, CL_EXEC_STATUS_ERROR_FOR_EVENTS_IN_WAIT_LIST, D.InconsistentWaitList);
      KeepsSticky(cb.base, b, b2);
      cb.(base := b2)
    else cb.(base := b)
  }

  /** What `Create` hands back: the command, or none, and the code written
      to the caller's error slot when it supplied one. */
  datatype Created = Created(command: Option<Command>, code: int)

  /** `Create` of the copy builders. */
  function CreateCopy(cb: CopyBuilder): (r: Created)
    requires Ready(cb)
    ensures r.command.None? <==> |cb.base.diagnostics| > 0
    ensures r.code == cb.base.errCode
    ensures r.command.Some? ==>
      && r.command.value.waitList == cb.base.waitList
      && r.command.value.blocking == cb.blocking
      && (r.command.value.kind.ReadBuffer? <==> cb.dir == Read)
      && (r.command.value.kind.ReadBuffer? || r.command.value.kind.WriteBuffer?)
      && r.command.value.kind.buffer == cb.buffer.value
      && r.command.value.kind.offset + r.command.value.kind.size <= cb.buffer.value.size
  {
    if cb.base.errCode != CL_SUCCESS then Created(None, cb.base.errCode)
    else
      var kind :=
        if cb.dir == Read then ReadBuffer(cb.buffer.value, cb.host.value, cb.offset, cb.size)
        else WriteBuffer(cb.buffer.value, cb.host.value, cb.offset, cb.size);
      Created(Some(Command(kind, cb.base.waitList, cb.blocking)), CL_SUCCESS)
  }

  /** A wait list of the given events, none of them null. */
  function Present(evs: seq<E.Event>): (ws: seq<Option<E.Event>>)
    ensures |ws| == |evs| && forall j :: 0 <= j < |evs| ==> ws[j] == Some(evs[j])
  {
    seq(|evs|, j requires 0 <= j < |evs| => Some(evs[j]))
  }

  /** A non-empty list without null entries is appended whole. */
  lemma SetWaitListPresent(b: Base, evs: seq<E.Event>)
    requires |evs| > 0
    ensures !WaitListRejected(|evs|, Some(Present(evs)))
    ensures SetWaitList(b, |evs|, Some(Present(evs))) == b.(waitList := b.waitList + evs)
  {
    var ws := Present(evs);
    var k := FirstNull(ws, 0, |evs|);
    assert k == |evs|;
    assert ws[..k] == ws;
    assert Values(ws) == evs;
  }

  /** Blocking on a wait list that holds a failed event is refused whichever
      of the two setters comes last; only the flag left behind differs. */
  lemma BlockingOrderIrrelevant(cb: CopyBuilder, evs: seq<E.Event>)
    requires Ready(cb) && cb.base.waitList == []
    requires HasErrored(evs)
    ensures var a := CopySetWaitList(SetBlocking(cb, true), |evs|, Some(Present(evs)));
      var b := SetBlocking(CopySetWaitList(cb, |evs|, Some(Present(evs))), true);
      && a.base.errCode == CL_EXEC_STATUS_ERROR_FOR_EVENTS_IN_WAIT_LIST
      && b.base.errCode == CL_EXEC_STATUS_ERROR_FOR_EVENTS_IN_WAIT_LIST
      && CreateCopy(a).command.None? && CreateCopy(b).command.None?
      && a.blocking && b.blocking == cb.blocking
  {
    var c1 := SetBlocking(cb, true);
    SetWaitListPresent(c1.base, evs);
    SetWaitListPresent(cb.base, evs);
    var a := CopySetWaitList(c1, |evs|, Some(Present(evs)));
    var c2 := CopySetWaitList(cb, |evs|, Some(Present(evs)));
    assert c1.base.waitList == [] && a.base.waitList == evs;
    assert c2.base.waitList == evs;
  }

  /** The sequence the host API performs: constructor, `SetBlocking`,
      `SetCopyArea`, `SetWaitList`, `Create`. A command comes out exactly
      when the memory object is a buffer, the host pointer is not null, the
      area fits the buffer, the wait list is well formed, and a blocking
      command does not wait on a failed event. */
  lemma CopyCommandAccepted(dir: Direction, mem: Option<MemObj>, host: Option<nat>, blocking: bool,
                            offset: nat, size: nat, n: nat, evs: Option<seq<Option<E.Event>>>)
    requires offset < SizeSpan && size < SizeSpan
    requires evs.Some? ==> n <= |evs.value|
    ensures var c0 := NewCopyBuilder(dir, mem, host);
      var c3 := CopySetWaitList(SetCopyArea(SetBlocking(c0, blocking), offset, size), n, evs);
      Ready(c3)
      && (CreateCopy(c3).command.Some? <==>
        && mem.Some? && mem.value.isBuffer && host.Some?
        && offset + size <= mem.value.size
        && !WaitListRejected(n, evs)
        && !(blocking && HasErrored(SetWaitList(NewBase, n, evs).waitList)))
  {
    var c0 := NewCopyBuilder(dir, mem, host);
    var c1 := SetBlocking(c0, blocking);
    var c2 := SetCopyArea(c1, offset, size);
    var c3 := CopySetWaitList(c2, n, evs);
    KeepsSticky(c0.base, c1.base, c2.base);
    KeepsSticky(c0.base, c2.base, c3.base);
    assert c2.base.waitList == [];
    assert c2.base.waitList == NewBase.waitList;
  }

  /** The same chain with the bound check as written: no error is
      recorded exactly when the object is a buffer, the host pointer is
      given, the end of the area, wrapped modulo 2^64, is within the
      buffer, the wait list is well formed and no blocking call waits on an
      errored event; the area is then recorded as given, even when it
      reaches past the buffer. */
  lemma CopyCommandAcceptedAsWritten(dir: Direction, mem: Option<MemObj>, host: Option<nat>, blocking: bool,
                                     offset: nat, size: nat, n: nat, evs: Option<seq<Option<E.Event>>>)
    requires offset < SizeSpan && size < SizeSpan
    requires evs.Some? ==> n <= |evs.value|
    ensures var c0 := NewCopyBuilder(dir, mem, host);
      var c3 := CopySetWaitList(SetCopyAreaAsWritten(SetBlocking(c0, blocking), offset, size), n, evs);
      && (c3.base.errCode == CL_SUCCESS <==>
        && mem.Some? && mem.value.isBuffer && host.Some?
        && (offset + size) % SizeSpan <= mem.value.size
        && !WaitListRejected(n, evs)
        && !(blocking && HasErrored(SetWaitList(NewBase, n, evs).waitList)))
      && (c3.base.errCode == CL_SUCCESS ==> c3.offset == offset && c3.size == size)
  {
    var c0 := NewCopyBuilder(dir, mem, host);
    var c1 := SetBlocking(c0, blocking);
    var c2 := SetCopyAreaAsWritten(c1, offset, size);
    var c3 := CopySetWaitList(c2, n, evs);
    KeepsSticky(c0.base, c1.base, c2.base);
    KeepsSticky(c0.base, c2.base, c3.base);
    assert c2.base.waitList == [];
    assert c2.base.waitList == NewBase.waitList;
  }
}
