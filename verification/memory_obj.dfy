/** Buffer creation (`clCreateBuffer`, section 5.2.1 of the OpenCL 1.1
    specification). A `BufferBuilder` collects the size, where the storage
    lives (the host's memory, host-accessible memory, a copy of host data)
    and the access protection. Like the command builders it keeps a sticky
    error code; each setter called with its flag off does nothing. */
module MemoryObj {
  import opened Results
  import opened ClCodes
  import D = Diagnostics
  import C = Command

  /** `MemoryObj::AccessProtection`; at most one of the three is chosen. */
  datatype Protection = InvalidProtection | ReadWrite | WriteOnly | ReadOnly

  datatype BufferBuilder = BufferBuilder(
    base: C.Base, size: nat,
    useHost: bool, allocHost: bool, copyHost: bool, hostPtr: Option<nat>,
    prot: Protection)

  /** What every builder reachable through the operations below satisfies:
      a consistent code, host memory used only alone, and a host pointer
      exactly when host memory is used or copied. */
  predicate Coherent(b: BufferBuilder) {
    && C.Consistent(b.base)
    && !(b.useHost && (b.allocHost || b.copyHost))
    && (b.useHost || b.copyHost <==> b.hostPtr.Some?)
  }

  /** A setter that refused: one more diagnostic, and nothing but the code
      and the diagnostics changed. */
  predicate Refused(b: BufferBuilder, r: BufferBuilder, code: int) {
    && r == b.(base := r.base)
    && |r.base.diagnostics| == |b.base.diagnostics| + 1
    && r.base == C.NotifyError(b.base, code, r.base.diagnostics[|b.base.diagnostics|])
  }

  /** Some device of the context cannot allocate `size` bytes at once. */
  function ExceedsSome(size: nat, maxAllocs: seq<nat>): (r: bool)
    ensures r <==> exists j :: 0 <= j < |maxAllocs| && size > maxAllocs[j]
  {
    if |maxAllocs| == 0 then false
    else
      assert forall j :: 1 <= j < |maxAllocs| ==> maxAllocs[1..][j - 1] == maxAllocs[j];
      size > maxAllocs[0] || ExceedsSome(size, maxAllocs[1..])
  }

  /** The constructor, given the largest allocation each device of the
      context allows. A size of zero, or one some device cannot allocate,
      is refused with a single diagnostic. */
  function New(size: nat, maxAllocs: seq<nat>): (r: BufferBuilder)
    ensures Coherent(r) && r.base.waitList == []
    ensures r.size == size && !r.useHost && !r.allocHost && !r.copyHost && r.prot == InvalidProtection
    ensures r.base.errCode != CL_SUCCESS <==> size == 0 || exists j :: 0 <= j < |maxAllocs| && size > maxAllocs[j]
    ensures r.base.errCode != CL_SUCCESS ==> r.base.errCode == CL_INVALID_BUFFER_SIZE && |r.base.diagnostics| == 1
  {
    var b := BufferBuilder(C.NewBase, size, false, false, false, None, InvalidProtection);
    if size == 0 then b.(base := C.NotifyError(b.base, CL_INVALID_BUFFER_SIZE, D.ZeroBufferSize))
    else if ExceedsSome(size, maxAllocs) then
      b.(base := C.NotifyError(b.base, CL_INVALID_BUFFER_SIZE, D.BufferTooLarge))
    else b
  }


  /** `SetUseHostMemory`: the buffer lives in the caller's memory, which
      needs a pointer and excludes the other two storage flags. */
  function SetUseHostMemory(b: BufferBuilder, enabled: bool, storage: Option<nat>): (r: BufferBuilder)
    ensures C.Keeps(b.base, r.base) && r.base.waitList == b.base.waitList
    ensures Coherent(b) ==> Coherent(r)
    ensures !enabled ==> r == b
    ensures enabled && storage.None? ==> Refused(b, r, CL_INVALID_HOST_PTR)
    ensures enabled && storage.Some? && (b.allocHost || b.copyHost) ==> Refused(b, r, CL_INVALID_VALUE)
    ensures enabled && storage.Some? && !b.allocHost && !b.copyHost ==> r == b.(useHost := true, hostPtr := storage)
  {
    if !enabled then b
    else if storage.None? then b.(base := C.NotifyError(b.base, CL_INVALID_HOST_PTR, D.MissingHostStorage))
    else if b.allocHost || b.copyHost then b.(base := C.NotifyError(b.base, CL_INVALID_VALUE, D.MultipleStorage))
    else b.(useHost := true, hostPtr := storage)
  }

  /** `SetAllocHostMemory`: excludes host memory in use. */
  function SetAllocHostMemory(b: BufferBuilder, enabled: bool): (r: BufferBuilder)
    ensures C.Keeps(b.base, r.base) && r.base.waitList == b.base.waitList
    ensures Coherent(b) ==> Coherent(r)
    ensures !enabled ==> r == b
    ensures enabled && b.useHost ==> Refused(b, r, CL_INVALID_VALUE)
    ensures enabled && !b.useHost ==> r == b.(allocHost := true)
  {
    if !enabled then b
    else if b.useHost then b.(base := C.NotifyError(b.base, CL_INVALID_VALUE, D.MultipleStorage))
    else b.(allocHost := true)
  }

  /** `SetCopyHostMemory`: initialise from host data, which needs a pointer
      and excludes host memory in use (but not host-accessible memory). */
  function SetCopyHostMemory(b: BufferBuilder, enabled: bool, src: Option<nat>): (r: BufferBuilder)
    ensures C.Keeps(b.base, r.base) && r.base.waitList == b.base.waitList
    ensures Coherent(b) ==> Coherent(r)
    ensures !enabled ==> r == b
    ensures enabled && src.None? ==> Refused(b, r, CL_INVALID_HOST_PTR)
    ensures enabled && src.Some? && b.useHost ==> Refused(b, r, CL_INVALID_VALUE)
    ensures enabled && src.Some? && !b.useHost ==> r == b.(copyHost := true, hostPtr := src)
  {
    if !enabled then b
    else if src.None? then b.(base := C.NotifyError(b.base, CL_INVALID_HOST_PTR, D.MissingInitData))
    else if b.useHost then b.(base := C.NotifyError(b.base, CL_INVALID_VALUE, D.MultipleStorage))
    else b.(copyHost := true, hostPtr := src)
  }

  /** `SetReadWrite`, `SetWriteOnly` and `SetReadOnly`, which differ only in
      the protection they choose: another protection already chosen is an
      error, the same one again is accepted. */
  function SetProtection(b: BufferBuilder, enabled: bool, p: Protection): (r: BufferBuilder)
    requires p != InvalidProtection
    ensures C.Keeps(b.base, r.base) && r.base.waitList == b.base.waitList
    ensures Coherent(b) ==> Coherent(r)
    ensures !enabled ==> r == b
    ensures enabled && b.prot != InvalidProtection && b.prot != p ==> Refused(b, r, CL_INVALID_VALUE)
    ensures enabled && (b.prot == InvalidProtection || b.prot == p) ==> r == b.(prot := p)
  {
    if !enabled then b
    else if b.prot != InvalidProtection && b.prot != p then
      b.(base := C.NotifyError(b.base, CL_INVALID_VALUE, D.MultipleProtection))
    else b.(prot := p)
  }

  /** Where `Create` sends the request: the context's creator for buffers
      in host memory, in host-accessible memory, or on the devices. */
  datatype Storage = HostBuffer | HostAccessibleBuffer | DeviceBuffer

  /** What `Create` does: refuse with the recorded code, or hand the request
      to one of the context's creators. */
  datatype Request =
    | Rejected(code: int)
    | Dispatch(storage: Storage, size: nat, hostPtr: Option<nat>, prot: Protection)

  /** `BufferBuilder::Create`: host memory in use takes precedence over
      host-accessible memory, and the devices are the default. */
  function Create(b: BufferBuilder): (r: Request)
    ensures r.Rejected? <==> b.base.errCode != CL_SUCCESS
    ensures r.Rejected? ==> r.code == b.base.errCode
    ensures r.Dispatch? ==> r.size == b.size && r.hostPtr == b.hostPtr && r.prot == b.prot
    ensures r.Dispatch? ==> (r.storage == HostBuffer <==> b.useHost)
    ensures r.Dispatch? ==> (r.storage == HostAccessibleBuffer <==> !b.useHost && b.allocHost)
  {
    if b.base.errCode != CL_SUCCESS then Rejected(b.base.errCode)
    else if b.useHost then Dispatch(HostBuffer, b.size, b.hostPtr, b.prot)
    else if b.allocHost then Dispatch(HostAccessibleBuffer, b.size, b.hostPtr, b.prot)
    else Dispatch(DeviceBuffer, b.size, b.hostPtr, b.prot)
  }

  // The flags of `clCreateBuffer`, applied in the order the entry point uses.

  datatype Flags = Flags(
    readWrite: bool, writeOnly: bool, readOnly: bool,
    useHost: bool, allocHost: bool, copyHost: bool)

  /** `clCreateBuffer`'s constructor and storage setters, each called with
      its own flag. */
  function StorageStep(size: nat, maxAllocs: seq<nat>, f: Flags, hostPtr: Option<nat>): BufferBuilder {
    var b0 := New(size, maxAllocs);
    var b1 := SetUseHostMemory(b0, f.useHost, hostPtr);
    var b2 := SetAllocHostMemory(b1, f.allocHost);
    SetCopyHostMemory(b2, f.copyHost, hostPtr)
  }

  /** `clCreateBuffer`'s protection setters, each called with its own flag. */
  function Protect(b: BufferBuilder, f: Flags): BufferBuilder {
    var b4 := SetProtection(b, f.readWrite, ReadWrite);
    var b5 := SetProtection(b4, f.writeOnly, WriteOnly);
    SetProtection(b5, f.readOnly, ReadOnly)
  }

  /** `clCreateBuffer` once its flags are known to be among the six above. */
  function CreateBuffer(size: nat, maxAllocs: seq<nat>, f: Flags, hostPtr: Option<nat>): Request {
    Create(Protect(StorageStep(size, maxAllocs, f, hostPtr), f))
  }

  /** The rules of section 5.2.1 of the OpenCL 1.1 specification, as the
      builder enforces them: a size every device can allocate, a host
      pointer whenever host memory is used or copied, host memory in use
      combined with neither other storage flag, and at most one protection. */
  predicate FlagsAccepted(size: nat, maxAllocs: seq<nat>, f: Flags, hostPtr: Option<nat>) {
    && 0 < size && (forall j :: 0 <= j < |maxAllocs| ==> size <= maxAllocs[j])
    && (f.useHost || f.copyHost ==> hostPtr.Some?)
    && !(f.useHost && (f.allocHost || f.copyHost))
    && !(f.readWrite && f.writeOnly) && !(f.readWrite && f.readOnly) && !(f.writeOnly && f.readOnly)
  }

  /** The checks of `clCreateBuffer` in order, each with the code it reports. */
  function FlagChecks(size: nat, maxAllocs: seq<nat>, f: Flags, hostPtr: Option<nat>): seq<C.Check> {
    [ C.Check(size == 0 || ExceedsSome(size, maxAllocs), CL_INVALID_BUFFER_SIZE),
      C.Check(f.useHost && hostPtr.None?, CL_INVALID_HOST_PTR),
      C.Check(f.allocHost && f.useHost && hostPtr.Some?, CL_INVALID_VALUE),
      C.Check(f.copyHost && hostPtr.None?, CL_INVALID_HOST_PTR),
      C.Check(f.copyHost && f.useHost && hostPtr.Some?, CL_INVALID_VALUE),
      C.Check(f.writeOnly && f.readWrite, CL_INVALID_VALUE),
      C.Check(f.readOnly && (f.readWrite || f.writeOnly), CL_INVALID_VALUE) ]
  }

  /** No check fails exactly when the flags obey the rules. */
  lemma ChecksMatchRules(size: nat, maxAllocs: seq<nat>, f: Flags, hostPtr: Option<nat>)
    ensures var cs := FlagChecks(size, maxAllocs, f, hostPtr);
      (forall k :: 0 <= k < |cs| ==> !cs[k].failed) <==> FlagsAccepted(size, maxAllocs, f, hostPtr)
  {
    var cs := FlagChecks(size, maxAllocs, f, hostPtr);
    assert (forall k :: 0 <= k < |cs| ==> !cs[k].failed) <==>
      !cs[0].failed && !cs[1].failed && !cs[2].failed && !cs[3].failed && !cs[4].failed && !cs[5].failed && !cs[6].failed;
  }

  /** The code left by seven checks, spelled out. */
  lemma LastWinsOfSeven(cs: seq<C.Check>)
    requires |cs| == 7
    ensures C.LastWins(cs) ==
      if cs[6].failed then cs[6].code else if cs[5].failed then cs[5].code
      else if cs[4].failed then cs[4].code else if cs[3].failed then cs[3].code
      else if cs[2].failed then cs[2].code else if cs[1].failed then cs[1].code
      else if cs[0].failed then cs[0].code else CL_SUCCESS
  {
    assert cs == cs[..6] + [cs[6]];
    C.LastWinsSnoc(cs[..6], cs[6]);
    assert cs[..6] == cs[..5] + [cs[5]];
    C.LastWinsSnoc(cs[..5], cs[5]);
    assert cs[..5] == cs[..4] + [cs[4]];
    C.LastWinsSnoc(cs[..4], cs[4]);
    assert cs[..4] == cs[..3] + [cs[3]];
    C.LastWinsSnoc(cs[..3], cs[3]);
    assert cs[..3] == cs[..2] + [cs[2]];
    C.LastWinsSnoc(cs[..2], cs[2]);
    assert cs[..2] == cs[..1] + [cs[1]];
    C.LastWinsSnoc(cs[..1], cs[1]);
    assert cs[..1] == [] + [cs[0]];
    C.LastWinsSnoc([], cs[0]);
  }

  /** The storage checks: which fail, and what they leave behind. */
  lemma StorageChecks(size: nat, maxAllocs: seq<nat>, f: Flags, hostPtr: Option<nat>)
    ensures var b := StorageStep(size, maxAllocs, f, hostPtr);
      var cs := FlagChecks(size, maxAllocs, f, hostPtr);
      && b.prot == InvalidProtection
      && b.base.errCode == (
        if cs[4].failed then cs[4].code else if cs[3].failed then cs[3].code
        else if cs[2].failed then cs[2].code else if cs[1].failed then cs[1].code
        else if cs[0].failed then cs[0].code else CL_SUCCESS)
  {
    var b0 := New(size, maxAllocs);
    var b1 := SetUseHostMemory(b0, f.useHost, hostPtr);
    assert b1.useHost == (f.useHost && hostPtr.Some?);
  }

  /** The protection checks over any builder with no protection chosen. */
  lemma ProtectionChecks(b: BufferBuilder, f: Flags)
    requires b.prot == InvalidProtection
    ensures var r := Protect(b, f);
      && r.base.errCode == (
           if f.readOnly && (f.readWrite || f.writeOnly) then CL_INVALID_VALUE
           else if f.writeOnly && f.readWrite then CL_INVALID_VALUE
           else b.base.errCode)
      && r.prot == if f.readWrite then ReadWrite else if f.writeOnly then WriteOnly
                   else if f.readOnly then ReadOnly else InvalidProtection
  {
    var b4 := SetProtection(b, f.readWrite, ReadWrite);
    assert b4.prot == if f.readWrite then ReadWrite else InvalidProtection;
  }

  /** The last builder's code is the last failure among the checks. */
  lemma StepsFollowChecks(size: nat, maxAllocs: seq<nat>, f: Flags, hostPtr: Option<nat>)
    ensures Protect(StorageStep(size, maxAllocs, f, hostPtr), f).base.errCode == C.LastWins(FlagChecks(size, maxAllocs, f, hostPtr))
  {
    LastWinsOfSeven(FlagChecks(size, maxAllocs, f, hostPtr));
    StorageChecks(size, maxAllocs, f, hostPtr);
    ProtectionChecks(StorageStep(size, maxAllocs, f, hostPtr), f);
  }

  /** The protection the flags choose, when at most one is set. */
  function ChosenProtection(f: Flags): Protection {
    if f.readWrite then ReadWrite else if f.writeOnly then WriteOnly
    else if f.readOnly then ReadOnly else InvalidProtection
  }

  /** `clCreateBuffer` creates a buffer exactly when the flags obey the
      rules, and a refusal reports the code of the last check that failed. */
  lemma CreateBufferFollowsFlags(size: nat, maxAllocs: seq<nat>, f: Flags, hostPtr: Option<nat>)
    ensures var r := CreateBuffer(size, maxAllocs, f, hostPtr);
      && (r.Dispatch? <==> FlagsAccepted(size, maxAllocs, f, hostPtr))
      && (r.Rejected? ==> r.code == C.LastWins(FlagChecks(size, maxAllocs, f, hostPtr)))
  {
    StepsFollowChecks(size, maxAllocs, f, hostPtr);
    ChecksPassIff(size, maxAllocs, f, hostPtr);
  }

  /** The checks leave success exactly when the flags obey the rules. */
  lemma ChecksPassIff(size: nat, maxAllocs: seq<nat>, f: Flags, hostPtr: Option<nat>)
    ensures C.LastWins(FlagChecks(size, maxAllocs, f, hostPtr)) == CL_SUCCESS <==> FlagsAccepted(size, maxAllocs, f, hostPtr)
  {
    var cs := FlagChecks(size, maxAllocs, f, hostPtr);
    assert forall k :: 0 <= k < |cs| ==> cs[k].code in {CL_INVALID_BUFFER_SIZE, CL_INVALID_HOST_PTR, CL_INVALID_VALUE};
    C.LastWinsSuccess(cs);
    ChecksMatchRules(size, maxAllocs, f, hostPtr);
  }

  /** An accepted request carries the size, the storage, the pointer and
      the protection the flags ask for. */
  lemma CreateBufferRequest(size: nat, maxAllocs: seq<nat>, f: Flags, hostPtr: Option<nat>)
    requires FlagsAccepted(size, maxAllocs, f, hostPtr)
    ensures var r := CreateBuffer(size, maxAllocs, f, hostPtr);
      && r.Dispatch?
      && r.size == size
      && r.storage == (if f.useHost then HostBuffer else if f.allocHost then HostAccessibleBuffer else DeviceBuffer)
      && r.hostPtr == (if f.useHost || f.copyHost then hostPtr else None)
      && r.prot == ChosenProtection(f)
  {
    CreateBufferFollowsFlags(size, maxAllocs, f, hostPtr);
  }

  /** Host memory in use and host-accessible memory exclude each other
      whichever setter comes first. */
  lemma StorageConflictEitherOrder(b: BufferBuilder, storage: nat)
    requires Coherent(b) && !b.useHost && !b.allocHost && !b.copyHost
    ensures SetAllocHostMemory(SetUseHostMemory(b, true, Some(storage)), true).base.errCode == CL_INVALID_VALUE
    ensures SetUseHostMemory(SetAllocHostMemory(b, true), true, Some(storage)).base.errCode == CL_INVALID_VALUE
  {
  }

  /** Whatever setters follow, a recorded error stays recorded: `Create` on
      any builder reached from an erroneous one rejects. */
  lemma ErrorPersists(b: BufferBuilder, f: Flags, hostPtr: Option<nat>)
    requires Coherent(b) && b.base.errCode != CL_SUCCESS
    ensures var b1 := SetUseHostMemory(b, f.useHost, hostPtr);
      var b2 := SetAllocHostMemory(b1, f.allocHost);
      var b3 := SetCopyHostMemory(b2, f.copyHost, hostPtr);
      var b4 := SetProtection(b3, f.readWrite, ReadWrite);
      var b5 := SetProtection(b4, f.writeOnly, WriteOnly);
      var b6 := SetProtection(b5, f.readOnly, ReadOnly);
      Create(b6).Rejected?
  {
    var b1 := SetUseHostMemory(b, f.useHost, hostPtr);
    var b2 := SetAllocHostMemory(b1, f.allocHost);
    var b3 := SetCopyHostMemory(b2, f.copyHost, hostPtr);
    var b4 := SetProtection(b3, f.readWrite, ReadWrite);
    var b5 := SetProtection(b4, f.writeOnly, WriteOnly);
    var b6 := SetProtection(b5, f.readOnly, ReadOnly);
    C.KeepsSticky(b.base, b1.base, b2.base);
    C.KeepsSticky(b.base, b2.base, b3.base);
    C.KeepsSticky(b.base, b3.base, b4.base);
    C.KeepsSticky(b.base, b4.base, b5.base);
    C.KeepsSticky(b.base, b5.base, b6.base);
  }
}
