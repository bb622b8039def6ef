/** Context creation at the API boundary (`clCreateContext`,
    `clCreateContextFromType`, section 4.3 of the OpenCL 1.1
    specification): the property list, the device type and the devices
    are checked in the order the entry points check them. A property list
    is the memory the caller's pointer designates, read as integers; a
    non-null platform handle denotes the runtime's one platform, whose
    devices are `ApiDevice.Platform`. Every failure also returns a null
    context; the code is what is stored through `errcode_ret`. */
module ApiContext {
  import opened Results
  import opened ClCodes
  import D = ApiDevice

  /** The bits of the four named device types. */
  const DeviceTypeAllInternal: bv64 :=
    CL_DEVICE_TYPE_CPU | CL_DEVICE_TYPE_GPU | CL_DEVICE_TYPE_ACCELERATOR | CL_DEVICE_TYPE_DEFAULT

  /** `clValidDeviceType`: `ALL`, whose bits are all set, or a value with
      no bit outside the named types. */
  predicate ValidDeviceType(t: bv64) {
    t == CL_DEVICE_TYPE_ALL || t & !DeviceTypeAllInternal == 0
  }

  /** A device type is valid exactly when it is `ALL` or a combination of
      `DEFAULT`, `CPU`, `GPU` and `ACCELERATOR`, that is a value below
      16. */
  lemma ValidDeviceTypeIff(t: bv64)
    ensures ValidDeviceType(t) <==> t == CL_DEVICE_TYPE_ALL || t < 16
  {
  }

  /** The list read from position `i` reaches a zero name, and every
      non-zero name has its value after it: the reads stay in bounds. */
  predicate Terminated(props: seq<int>, i: nat)
    decreases |props| - i
  {
    i < |props| && (props[i] == 0 || (i + 1 < |props| && Terminated(props, i + 2)))
  }

  /** The name/value pairs before the terminator. */
  function Pairs(props: seq<int>, i: nat): (r: seq<(int, int)>)
    requires Terminated(props, i)
    decreases |props| - i
  {
    if props[i] == 0 then [] else [(props[i], props[i + 1])] + Pairs(props, i + 2)
  }

  /** The platform a property value names: a null value means the default
      platform. */
  function PlatformValue(value: int, defaultPlatform: int): int {
    if value == 0 then defaultPlatform else value
  }

  /** `clParseProperties` from position `i`, with the mappings gathered so
      far: only `CL_CONTEXT_PLATFORM` is known, a repeated name is refused,
      and the platform must be present once the terminator is reached. The
      error is the code stored through `errcode_ret`. */
  function ParseFrom(props: seq<int>, i: nat, mappings: map<int, int>, defaultPlatform: int): (r: Result<map<int, int>, int>)
    requires Terminated(props, i)
    decreases |props| - i
  {
    if props[i] == 0 then
      if CL_CONTEXT_PLATFORM in mappings then Success(mappings) else Failure(CL_INVALID_PLATFORM)
    else
      var name, value := props[i], props[i + 1];
      if name != CL_CONTEXT_PLATFORM then Failure(CL_INVALID_PROPERTY)
      else if name in mappings then Failure(CL_INVALID_PROPERTY)
      else ParseFrom(props, i + 2, mappings[name := PlatformValue(value, defaultPlatform)], defaultPlatform)
  }

  function ParseProperties(props: seq<int>, defaultPlatform: int): (r: Result<map<int, int>, int>)
    requires Terminated(props, 0)
    ensures r.Success? ==> CL_CONTEXT_PLATFORM in r.value && r.value.Keys == {CL_CONTEXT_PLATFORM}
    ensures r.Failure? ==> r.error in {CL_INVALID_PLATFORM, CL_INVALID_PROPERTY}
  {
    ParsePropertiesIff(props, defaultPlatform);
    ParseFrom(props, 0, map[], defaultPlatform)
  }

  /** From any point, with nothing or only the platform recorded so far,
      the parse is decided by the pairs still to come. */
  lemma {:induction false} ParseFromPairs(props: seq<int>, i: nat, mappings: map<int, int>, defaultPlatform: int)
    requires Terminated(props, i) && mappings.Keys <= {CL_CONTEXT_PLATFORM}
    ensures var ps := Pairs(props, i);
      var r := ParseFrom(props, i, mappings, defaultPlatform);
      && (|ps| == 0 ==> r == (if CL_CONTEXT_PLATFORM in mappings then Success(mappings) else Failure(CL_INVALID_PLATFORM)))
      && (|ps| > 0 && CL_CONTEXT_PLATFORM in mappings ==> r == Failure(CL_INVALID_PROPERTY))
      && (|ps| > 0 && CL_CONTEXT_PLATFORM !in mappings ==>
            if |ps| == 1 && ps[0].0 == CL_CONTEXT_PLATFORM
            then r == Success(mappings[CL_CONTEXT_PLATFORM := PlatformValue(ps[0].1, defaultPlatform)])
            else r == Failure(CL_INVALID_PROPERTY))
    decreases |props| - i
  {
    if props[i] != 0 && props[i] == CL_CONTEXT_PLATFORM && CL_CONTEXT_PLATFORM !in mappings {
      var m := mappings[CL_CONTEXT_PLATFORM := PlatformValue(props[i + 1], defaultPlatform)];
      ParseFromPairs(props, i + 2, m, defaultPlatform);
    }
  }

  /** A property list is accepted exactly when it holds one pair, naming
      the platform; an empty list lacks the platform, and anything else is
      a bad property. The accepted platform is the value given, or the
      default platform for a null value. */
  lemma ParsePropertiesIff(props: seq<int>, defaultPlatform: int)
    requires Terminated(props, 0)
    ensures var ps := Pairs(props, 0);
      var r := ParseFrom(props, 0, map[], defaultPlatform);
      && (r.Success? <==> |ps| == 1 && ps[0].0 == CL_CONTEXT_PLATFORM)
      && (r.Success? ==> r.value == map[CL_CONTEXT_PLATFORM := PlatformValue(ps[0].1, defaultPlatform)])
      && (r == Failure(CL_INVALID_PLATFORM) <==> |ps| == 0)
      && (r == Failure(CL_INVALID_PROPERTY) <==> |ps| > 0 && !(|ps| == 1 && ps[0].0 == CL_CONTEXT_PLATFORM))
  {
    ParseFromPairs(props, 0, map[], defaultPlatform);
  }

  /** A context as the entry points create it: the platform handle and
      its devices. */
  datatype NewContext = NewContext(platform: int, devices: seq<nat>)

  /** What a creation call gives back: the context (null on error) and the
      code stored through `errcode_ret`. */
  datatype Made = Made(context: Option<NewContext>, code: int)

  /** The first null entry of the device array from `i`, or its length. */
  function FirstNull(devices: seq<Option<nat>>, i: nat): (k: nat)
    requires i <= |devices|
    ensures i <= k <= |devices|
    ensures forall j :: i <= j < k ==> devices[j].Some?
    ensures k < |devices| ==> devices[k].None?
    decreases |devices| - i
  {
    if i == |devices| || devices[i].None? then i else FirstNull(devices, i + 1)
  }

  function Handles(devices: seq<Option<nat>>): (r: seq<nat>)
    requires forall j :: 0 <= j < |devices| ==> devices[j].Some?
    ensures |r| == |devices| && forall j :: 0 <= j < |r| ==> devices[j] == Some(r[j])
  {
    seq(|devices|, j requires 0 <= j < |devices| => devices[j].value)
  }

  /** `clCreateContext`. `props` and `devices` are `None` for null
      pointers; `devices` holds `num_devices` entries, `None` for a null
      handle. */
  function CreateContext(props: Option<seq<int>>, numDevices: nat, devices: Option<seq<Option<nat>>>,
                         hasCallback: bool, hasUserData: bool, defaultPlatform: int): (r: Made)
    requires props.Some? ==> Terminated(props.value, 0)
    requires devices.Some? ==> |devices.value| == numDevices
    ensures props.None? ==> r == Made(None, CL_INVALID_PLATFORM)
    ensures props.Some? && ParseProperties(props.value, defaultPlatform).Failure? ==>
      r == Made(None, ParseProperties(props.value, defaultPlatform).error)
    ensures (props.Some? && ParseProperties(props.value, defaultPlatform).Success?
             && (devices.None? || numDevices == 0 || (!hasCallback && hasUserData))) ==> r == Made(None, CL_INVALID_VALUE)
    ensures r.context.Some? <==> r.code == CL_SUCCESS
    ensures r.code == CL_SUCCESS <==>
      && props.Some? && ParseProperties(props.value, defaultPlatform).Success?
      && devices.Some? && numDevices > 0 && (hasUserData ==> hasCallback)
      && forall j :: 0 <= j < numDevices ==> devices.value[j].Some?
    ensures r.code == CL_INVALID_DEVICE <==>
      && props.Some? && ParseProperties(props.value, defaultPlatform).Success?
      && devices.Some? && numDevices > 0 && (hasUserData ==> hasCallback)
      && exists j :: 0 <= j < numDevices && devices.value[j].None?
    ensures r.context.Some? ==>
      && r.context.value.platform == ParseProperties(props.value, defaultPlatform).value[CL_CONTEXT_PLATFORM]
      && |r.context.value.devices| == numDevices
      && forall j :: 0 <= j < numDevices ==> devices.value[j] == Some(r.context.value.devices[j])
  {
    if props.None? then Made(None, CL_INVALID_PLATFORM)
    else match ParseProperties(props.value, defaultPlatform)
      case Failure(e) => Made(None, e)
      case Success(mappings) =>
        if devices.None? || numDevices == 0 || (!hasCallback && hasUserData) then Made(None, CL_INVALID_VALUE)
        else if FirstNull(devices.value, 0) < numDevices then Made(None, CL_INVALID_DEVICE)
        else Made(Some(NewContext(mappings[CL_CONTEXT_PLATFORM], Handles(devices.value))), CL_SUCCESS)
  }

  /** The devices `clCreateContextFromType` picks: the CPUs when the CPU
      or the DEFAULT bit is set, otherwise the GPUs when that bit is set,
      otherwise the accelerators when that bit is set, otherwise none. */
  function SelectByType(p: D.Platform, t: bv64): (r: seq<nat>)
    ensures t & (CL_DEVICE_TYPE_CPU | CL_DEVICE_TYPE_DEFAULT) != 0 ==> r == p.cpus
    ensures t & (CL_DEVICE_TYPE_CPU | CL_DEVICE_TYPE_DEFAULT) == 0 && t & CL_DEVICE_TYPE_GPU != 0 ==> r == p.gpus
    ensures t & (CL_DEVICE_TYPE_CPU | CL_DEVICE_TYPE_DEFAULT | CL_DEVICE_TYPE_GPU) == 0 ==>
      r == (if t & CL_DEVICE_TYPE_ACCELERATOR != 0 then p.accelerators else [])
  {
    if t & CL_DEVICE_TYPE_CPU != 0 || t & CL_DEVICE_TYPE_DEFAULT != 0 then p.cpus
    else if t & CL_DEVICE_TYPE_GPU != 0 then p.gpus
    else if t & CL_DEVICE_TYPE_ACCELERATOR != 0 then p.accelerators
    else []
  }

  /** `clCreateContextFromType`. */
  function CreateContextFromType(props: Option<seq<int>>, t: bv64, hasCallback: bool, hasUserData: bool,
                                 p: D.Platform, defaultPlatform: int): (r: Made)
    requires props.Some? ==> Terminated(props.value, 0)
    ensures props.None? ==> r == Made(None, CL_INVALID_PLATFORM)
    ensures props.Some? && ParseProperties(props.value, defaultPlatform).Failure? ==>
      r == Made(None, ParseProperties(props.value, defaultPlatform).error)
    ensures props.Some? && ParseProperties(props.value, defaultPlatform).Success? ==>
      r == FromTypeParsed(ParseProperties(props.value, defaultPlatform).value, t, hasCallback, hasUserData, p)
    ensures r.context.Some? <==> r.code == CL_SUCCESS
    ensures r.code == CL_SUCCESS <==>
      && props.Some? && ParseProperties(props.value, defaultPlatform).Success?
      && ValidDeviceType(t) && (hasUserData ==> hasCallback) && |SelectByType(p, t)| > 0
  {
    if props.None? then Made(None, CL_INVALID_PLATFORM)
    else match ParseProperties(props.value, defaultPlatform)
      case Failure(e) => Made(None, e)
      case Success(mappings) => FromTypeParsed(mappings, t, hasCallback, hasUserData, p)
  }

  /** The rest of `clCreateContextFromType` once the properties are
      accepted: the device type is checked, then the callback, then the
      devices the type selects. */
  function FromTypeParsed(mappings: map<int, int>, t: bv64, hasCallback: bool, hasUserData: bool,
                          p: D.Platform): (r: Made)
    requires CL_CONTEXT_PLATFORM in mappings
    ensures !ValidDeviceType(t) ==> r == Made(None, CL_INVALID_DEVICE_TYPE)
    ensures ValidDeviceType(t) && hasUserData && !hasCallback ==> r == Made(None, CL_INVALID_VALUE)
    ensures r.context.Some? <==> r.code == CL_SUCCESS
    ensures r.code == CL_SUCCESS <==> ValidDeviceType(t) && (hasUserData ==> hasCallback) && |SelectByType(p, t)| > 0
    ensures r.context.Some? ==> r.context.value == NewContext(mappings[CL_CONTEXT_PLATFORM], SelectByType(p, t))
  {
    if !ValidDeviceType(t) then Made(None, CL_INVALID_DEVICE_TYPE)
    else if !hasCallback && hasUserData then Made(None, CL_INVALID_VALUE)
    else
      var devs := SelectByType(p, t);
      if |devs| == 0 then Made(None, CL_DEVICE_NOT_FOUND)
      else Made(Some(NewContext(mappings[CL_CONTEXT_PLATFORM], devs)), CL_SUCCESS)
  }

  /** Creating a context from the type a device reports picks the devices
      of that device's kind; `ALL` picks only the CPUs here, where
      `clGetDeviceIDs` lists every kind. */
  lemma FromReportedType(p: D.Platform, k: D.DeviceKind)
    ensures ValidDeviceType(D.ReportedType(k)) && SelectByType(p, D.ReportedType(k)) == D.OfKind(p, k)
    ensures ValidDeviceType(CL_DEVICE_TYPE_ALL) && SelectByType(p, CL_DEVICE_TYPE_ALL) == p.cpus
    ensures D.Select(p, CL_DEVICE_TYPE_ALL) == Some(p.cpus + p.gpus + p.accelerators)
  {
  }
}
