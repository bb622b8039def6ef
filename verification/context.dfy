/** The context of section 4.3 of the OpenCL 1.1 specification, as the
    runtime's core sees it: the devices it spans, queues created for them,
    and buffers created on all of them at once. Devices are CPU devices,
    each represented by its global memory; the host allocator's answer
    for each device is a parameter. */
module Context {
  import opened Results
  import opened ClCodes
  import D = Diagnostics
  import GM = GlobalMemory
  import MO = MemoryObj

  datatype QueueKind = InOrder | OutOfOrder

  datatype Queue = Queue(device: nat, kind: QueueKind, profiled: bool)

  /** A queue, the code stored for the caller, and the diagnostics
      reported to the context. */
  datatype QueueResult = QueueResult(queue: Option<Queue>, code: int, diagnostics: seq<D.Diagnostic>)

  /** `Context::GetQueueForDevice`: only devices of the context get a
      queue, in order unless out-of-order execution is asked for. */
  function GetQueueForDevice(devices: seq<nat>, dev: nat, outOfOrder: bool, profile: bool): (r: QueueResult)
    ensures r.queue.None? <==> dev !in devices
    ensures r.queue.None? ==> r.code == CL_INVALID_DEVICE && |r.diagnostics| == 1
    ensures r.queue.Some? ==>
      && r.code == CL_SUCCESS && r.diagnostics == []
      && r.queue.value.device == dev && r.queue.value.profiled == profile
      && (r.queue.value.kind == OutOfOrder <==> outOfOrder)
  {
    if dev !in devices then QueueResult(None, CL_INVALID_DEVICE, [D.DeviceNotInContext])
    else QueueResult(Some(Queue(dev, if outOfOrder then OutOfOrder else InOrder, profile)), CL_SUCCESS, [])
  }

  /** The state of the first `i` devices after trying to allocate `obj` on
      each (a refused allocation leaves a device as it was), the others
      untouched. */
  predicate Tried(devs: seq<GM.Memory>, cur: seq<GM.Memory>, obj: GM.Obj, addrs: seq<Option<nat>>, i: nat)
    requires |addrs| == |devs| == |cur| && i <= |devs|
  {
    && (forall j :: 0 <= j < i ==> cur[j] == GM.Alloc(devs[j], obj, addrs[j]).memory)
    && (forall j :: i <= j < |devs| ==> cur[j] == devs[j])
  }

  /** Device `j` can hold the object. */
  predicate Fits(devs: seq<GM.Memory>, obj: GM.Obj, addrs: seq<Option<nat>>, j: nat)
    requires |addrs| == |devs| && j < |devs|
  {
    devs[j].available >= obj.size && addrs[j].Some?
  }

  /** `Context::CreateDeviceBuffer`: allocate on every device in order,
      stopping at the first refusal; after a refusal every device frees
      the buffer and the result is `CL_OUT_OF_RESOURCES`. A buffer new to
      every device therefore ends on all of them or on none. */
  method CreateDeviceBuffer(devs: seq<GM.Memory>, obj: GM.Obj, addrs: seq<Option<nat>>)
    returns (r: seq<GM.Memory>, created: bool, code: int, diagnostics: seq<D.Diagnostic>)
    requires |addrs| == |devs|
    ensures |r| == |devs|
    ensures created <==> forall j :: 0 <= j < |devs| ==> Fits(devs, obj, addrs, j)
    ensures created ==> code == CL_SUCCESS && diagnostics == []
    ensures !created ==> code == CL_OUT_OF_RESOURCES && diagnostics == [D.DeviceBufferAllocationFailed]
    ensures created ==> forall j :: 0 <= j < |devs| ==>
      && addrs[j].Some?
      && r[j].mappings == devs[j].mappings[obj := addrs[j].value]
      && r[j].available + obj.size == devs[j].available
    ensures !created ==> forall j :: 0 <= j < |devs| ==> obj !in r[j].mappings
    ensures !created && (forall j :: 0 <= j < |devs| ==> obj !in devs[j].mappings) ==> r == devs
    ensures (forall j :: 0 <= j < |devs| ==> obj !in devs[j].mappings && GM.Accounted(devs[j])) ==>
      forall j :: 0 <= j < |r| ==> GM.Accounted(r[j])
  {
    var cur := devs;
    var rollback := false;
    var i := 0;
    while i < |devs| && !rollback
      invariant 0 <= i <= |devs| && |cur| == |devs|
      invariant Tried(devs, cur, obj, addrs, i)
      invariant rollback <==> exists j :: 0 <= j < i && !Fits(devs, obj, addrs, j)
      invariant rollback ==> i > 0 && !Fits(devs, obj, addrs, i - 1)
      decreases |devs| - i
    {
      var a := GM.Alloc(cur[i], obj, addrs[i]);
      assert a.addr.None? <==> !Fits(devs, obj, addrs, i);
      cur := cur[i := a.memory];
      if a.addr.None? {
        rollback := true;
      }
      i := i + 1;
    }
    if !rollback {
      forall j | 0 <= j < |devs|
        ensures addrs[j].Some? && cur[j].mappings == devs[j].mappings[obj := addrs[j].value]
        ensures cur[j].available + obj.size == devs[j].available
      {
        assert Fits(devs, obj, addrs, j);
      }
      return cur, true, CL_SUCCESS, [];
    }
    // Every device destroys the buffer, whether or not it got it.
    var k := 0;
    var tried := cur;
    while k < |devs|
      invariant 0 <= k <= |devs| && |cur| == |devs|
      invariant forall j :: 0 <= j < k ==> cur[j] == GM.Free(tried[j], obj)
      invariant forall j :: k <= j < |devs| ==> cur[j] == tried[j]
      decreases |devs| - k
    {
      cur := cur[k := GM.Free(cur[k], obj)];
      k := k + 1;
    }
    forall j | 0 <= j < |devs| && obj !in devs[j].mappings
      ensures cur[j] == devs[j]
    {
      if j < i {
        GM.FreeUndoesAlloc(devs[j], obj, addrs[j]);
      }
    }
    return cur, false, CL_OUT_OF_RESOURCES, [D.DeviceBufferAllocationFailed];
  }

  /** The first device from `from` on that cannot hold the object, or
      the number of devices when every one can. */
  function FirstRefusal(devs: seq<GM.Memory>, obj: GM.Obj, addrs: seq<Option<nat>>, from: nat): (j: nat)
    requires |addrs| == |devs| && from <= |devs|
    ensures from <= j <= |devs|
    ensures forall i :: from <= i < j ==> Fits(devs, obj, addrs, i)
    ensures j < |devs| ==> !Fits(devs, obj, addrs, j)
    ensures j == |devs| <==> forall i :: from <= i < |devs| ==> Fits(devs, obj, addrs, i)
    decreases |devs| - from
  {
    if from == |devs| || !Fits(devs, obj, addrs, from) then from
    else FirstRefusal(devs, obj, addrs, from + 1)
  }

  /** As written, a buffer with initialisation data that some device of
      the context cannot hold is copied to a null address: the allocation
      loop reaches the first device that refuses it with that device's
      memory untouched, and the device copies the data to the null address
      it got before the rollback starts. */
  lemma RefusalCopiesToNullAsWritten(devs: seq<GM.Memory>, obj: GM.Obj, addrs: seq<Option<nat>>)
    requires |addrs| == |devs|
    requires !forall j :: 0 <= j < |devs| ==> Fits(devs, obj, addrs, j)
    ensures FirstRefusal(devs, obj, addrs, 0) < |devs|
    ensures var j := FirstRefusal(devs, obj, addrs, 0);
      var a := GM.AllocDeviceBufferAsWritten(devs[j], obj, addrs[j], true);
      a.copied && a.target.None?
  {
  }

  /** What creating a buffer leaves: the devices, the buffer (if any), and
      the code stored for the caller (`None` when nothing is stored). */
  datatype BufferResult = BufferResult(devices: seq<GM.Memory>, buffer: Option<GM.Obj>, code: Option<int>, diagnostics: seq<D.Diagnostic>)

  /** `BufferBuilder::Create` followed by the creator it dispatches to. The
      creators for buffers in host memory and in host-accessible memory
      return null and store no code. */
  method CreateBuffer(devs: seq<GM.Memory>, req: MO.Request, id: nat, addrs: seq<Option<nat>>) returns (r: BufferResult)
    requires |addrs| == |devs|
    ensures |r.devices| == |devs|
    ensures req.Rejected? ==> r == BufferResult(devs, None, Some(req.code), [])
    ensures req.Dispatch? && req.storage != MO.DeviceBuffer ==> r == BufferResult(devs, None, None, [])
    ensures req.Dispatch? && req.storage == MO.DeviceBuffer ==>
      && (r.buffer.Some? <==> forall j :: 0 <= j < |devs| ==> Fits(devs, GM.Obj(id, req.size), addrs, j))
      && r.code == Some(if r.buffer.Some? then CL_SUCCESS else CL_OUT_OF_RESOURCES)
      && (r.buffer.Some? ==> r.buffer.value == GM.Obj(id, req.size))
  {
    match req
    case Rejected(code) =>
      r := BufferResult(devs, None, Some(code), []);
    case Dispatch(storage, size, _, _) =>
      if storage != MO.DeviceBuffer {
        r := BufferResult(devs, None, None, []);
      } else {
        var obj := GM.Obj(id, size);
        var mems, created, code, diagnostics := CreateDeviceBuffer(devs, obj, addrs);
        r := BufferResult(mems, if created then Some(obj) else None, Some(code), diagnostics);
      }
  }
}
