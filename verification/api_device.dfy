/** Device enumeration (`clGetDeviceIDs` and the `CL_DEVICE_TYPE` query,
    section 4.2 of the OpenCL 1.1 specification). The platform's devices
    are identified by number and listed per kind, in the platform's
    order. */
module ApiDevice {
  import opened Results
  import opened ClCodes

  datatype DeviceKind = CPU | GPU | Accelerator

  /** The platform's devices of each kind. */
  datatype Platform = Platform(cpus: seq<nat>, gpus: seq<nat>, accelerators: seq<nat>)

  /** The devices of one kind. */
  function OfKind(p: Platform, k: DeviceKind): seq<nat> {
    match k
    case CPU => p.cpus
    case GPU => p.gpus
    case Accelerator => p.accelerators
  }

  /** The devices a `device_type` value selects: `DEFAULT` and `CPU` the
      CPUs, `GPU` and `ACCELERATOR` their own kind, `ALL` every kind in
      the order CPU, GPU, accelerator; any other value, a combination of
      bits included, selects nothing (`None`). */
  function Select(p: Platform, deviceType: bv64): (r: Option<seq<nat>>)
    ensures r.Some? <==> deviceType in {CL_DEVICE_TYPE_DEFAULT, CL_DEVICE_TYPE_CPU, CL_DEVICE_TYPE_GPU,
                                         CL_DEVICE_TYPE_ACCELERATOR, CL_DEVICE_TYPE_ALL}
  {
    if deviceType == CL_DEVICE_TYPE_DEFAULT || deviceType == CL_DEVICE_TYPE_CPU then Some(p.cpus)
    else if deviceType == CL_DEVICE_TYPE_GPU then Some(p.gpus)
    else if deviceType == CL_DEVICE_TYPE_ACCELERATOR then Some(p.accelerators)
    else if deviceType == CL_DEVICE_TYPE_ALL then Some(p.cpus + p.gpus + p.accelerators)
    else None
  }

  /** What `clGetDeviceIDs` reports: the code, the count stored through
      `num_devices` and the handles written into `devices`. */
  datatype Listed = Listed(code: int, numDevices: Option<nat>, written: Option<seq<nat>>)

  /** `clGetDeviceIDs`. `platform` is `None` for a null handle;
      `hasDevices` and `wantsNum` say whether the two output pointers are
      non-null. */
  function GetDeviceIDs(platform: Option<Platform>, deviceType: bv64, numEntries: nat,
                        hasDevices: bool, wantsNum: bool): (r: Listed)
    ensures platform.None? ==> r == Listed(CL_INVALID_PLATFORM, None, None)
    ensures platform.Some? && ((numEntries == 0 && hasDevices) || (!wantsNum && !hasDevices)) ==>
      r == Listed(CL_INVALID_VALUE, None, None)
    ensures r.code != CL_SUCCESS ==> r.numDevices.None? && r.written.None?
    ensures r.code == CL_SUCCESS <==>
      && platform.Some? && !(numEntries == 0 && hasDevices) && (wantsNum || hasDevices)
      && Select(platform.value, deviceType).Some? && |Select(platform.value, deviceType).value| > 0
    ensures r.code == CL_SUCCESS ==>
      var all := Select(platform.value, deviceType).value;
      && (r.numDevices.Some? <==> wantsNum) && (wantsNum ==> r.numDevices.value == |all|)
      && (r.written.Some? <==> hasDevices)
      && (hasDevices ==> |r.written.value| == Min(numEntries, |all|) && r.written.value <= all)
  {
    if platform.None? then Listed(CL_INVALID_PLATFORM, None, None)
    else if (numEntries == 0 && hasDevices) || (!wantsNum && !hasDevices) then Listed(CL_INVALID_VALUE, None, None)
    else match Select(platform.value, deviceType)
      case None => Listed(CL_INVALID_DEVICE_TYPE, None, None)
      case Some(devs) =>
        if |devs| == 0 then Listed(CL_DEVICE_NOT_FOUND, None, None)
        else Listed(CL_SUCCESS, if wantsNum then Some(|devs|) else None,
                    if hasDevices then Some(devs[..Min(numEntries, |devs|)]) else None)
  }

  function Min(a: nat, b: nat): nat {
    if a < b then a else b
  }

  /** The copy loop at the end of `clGetDeviceIDs`: at most `numEntries`
      handles, front first, exactly what the call reports written. */
  method CopyDevices(devs: seq<nat>, numEntries: nat) returns (out: seq<nat>)
    requires numEntries > 0 && |devs| > 0
    ensures out == GetDeviceIDs(Some(Platform(devs, [], [])), CL_DEVICE_TYPE_CPU, numEntries, true, false).written.value
  {
    out := [];
    var i := 0;
    while i < numEntries && i < |devs|
      invariant i <= |devs| && i <= numEntries
      invariant out == devs[..i]
    {
      out := out + [devs[i]];
      i := i + 1;
    }
  }

  /** The two-call idiom: a first call for the count alone, then a call
      with that many entries, gets every device the type selects. */
  lemma CountThenList(p: Platform, deviceType: bv64)
    requires GetDeviceIDs(Some(p), deviceType, 0, false, true).code == CL_SUCCESS
    ensures var n := GetDeviceIDs(Some(p), deviceType, 0, false, true).numDevices.value;
      var r := GetDeviceIDs(Some(p), deviceType, n, true, false);
      r.code == CL_SUCCESS && r.written == Select(p, deviceType)
  {
    var all := Select(p, deviceType).value;
    assert all[..Min(|all|, |all|)] == all;
  }

  /** `ALL` lists each kind's devices, in the platform's order, after the
      kinds that precede it. */
  lemma AllListsEveryKind(p: Platform, k: DeviceKind)
    ensures var all := Select(p, CL_DEVICE_TYPE_ALL).value;
      var before := match k
        case CPU => 0
        case GPU => |p.cpus|
        case Accelerator => |p.cpus| + |p.gpus|;
      before + |OfKind(p, k)| <= |all| && all[before..before + |OfKind(p, k)|] == OfKind(p, k)
  {
    var all := p.cpus + p.gpus + p.accelerators;
    match k
    case CPU => assert all[..|p.cpus|] == p.cpus;
    case GPU => assert all[|p.cpus|..|p.cpus| + |p.gpus|] == p.gpus;
    case Accelerator => assert all[|p.cpus| + |p.gpus|..] == p.accelerators;
  }

  /** The `CL_DEVICE_TYPE` a device reports: a CPU is also the default
      device. */
  function ReportedType(k: DeviceKind): (t: bv64)
    ensures t & CL_DEVICE_TYPE_CPU != 0 <==> k.CPU?
    ensures t & CL_DEVICE_TYPE_DEFAULT != 0 <==> k.CPU?
    ensures t & CL_DEVICE_TYPE_GPU != 0 <==> k.GPU?
    ensures t & CL_DEVICE_TYPE_ACCELERATOR != 0 <==> k.Accelerator?
  {
    match k
    case CPU => CL_DEVICE_TYPE_CPU | CL_DEVICE_TYPE_DEFAULT
    case GPU => CL_DEVICE_TYPE_GPU
    case Accelerator => CL_DEVICE_TYPE_ACCELERATOR
  }

  /** Listing by the type a device reports finds that kind's devices for
      GPUs and accelerators, but a CPU's combined type is refused. */
  lemma ListByReportedType(p: Platform, k: DeviceKind)
    ensures k.CPU? ==> GetDeviceIDs(Some(p), ReportedType(k), 1, true, true).code == CL_INVALID_DEVICE_TYPE
    ensures !k.CPU? ==> Select(p, ReportedType(k)) == Some(OfKind(p, k))
  {
  }
}
