/** The diagnostics the runtime reports to a context (`ReportDiagnostic`),
    one constructor per message of the source. The model records which
    message was reported; `Text` gives each one's wording. */
module Diagnostics {
  datatype Diagnostic =
    // The shared wait-list setter and the read/write buffer builders.
    | InvalidEvent | ExpectedEventsWaitList | UnexpectedEventsWaitList
    | ReadSourceNull | WriteTargetNull | ReadSourceNotBuffer | WriteTargetNotBuffer
    | DataSinkNull | DataSourceNull | InconsistentWaitList | ReadOutOfBounds | WriteExceedsCapacity
    // The buffer builder.
    | ZeroBufferSize | BufferTooLarge | MissingHostStorage | MultipleStorage | MissingInitData
    | MultipleProtection
    // The native kernel builder.
    | NoWorkingFunction | ExpectedArgsPointer | ExpectedArgsSize | UnexpectedMappings | ExpectedMappings
    | InvalidMemoryObject
    // The ND-range builder.
    | NotBuiltForDevice | DifferentContext | ArgsNotSpecified | WorkDimsOutOfRange | InvalidGlobalSize
    | GlobalSizeOutOfRange | OffsetOutOfRange | GroupSizeExceeds | GroupSizeNotDividing | GroupSizeMismatch
    | FixedLocalSizeRequired
    // Programs and kernels.
    | DeviceNotInBuildContext | NoSourceOrBinary | BuildInProgress | KernelsAttached | NoKernelDefinition
    | SignaturesMismatch | NothingBuilt | NoProgramGiven | NullProgramGiven
    | ArgSizeMismatch | ArgContextMismatch | LocalPointerArg | ArgIndexTooLarge
    // Contexts and queues.
    | DeviceNotInContext | DeviceBufferAllocationFailed | EventsOfOtherContext | NoNativeKernels

  function Text(d: Diagnostic): string {
    match d
    case InvalidEvent => "invalid event"
    case ExpectedEventsWaitList => "expected events wait list"
    case UnexpectedEventsWaitList => "unexpected events wait list"
    case ReadSourceNull => "read source is null"
    case WriteTargetNull => "write target is null"
    case ReadSourceNotBuffer => "read source is not a buffer"
    case WriteTargetNotBuffer => "write target is not a buffer"
    case DataSinkNull => "pointer to data sink is null"
    case DataSourceNull => "pointer to data source is null"
    case InconsistentWaitList => "cannot block on an inconsistent wait list"
    case ReadOutOfBounds => "out of bounds buffer read"
    case WriteExceedsCapacity => "data size exceed buffer capacity"
    case ZeroBufferSize => "buffer size must be greater than 0"
    case BufferTooLarge => "buffer size exceed device capabilities"
    case MissingHostStorage => "missing host storage pointer"
    case MultipleStorage => "multiple buffer storage specifiers not allowed"
    case MissingInitData => "missed pointer to initialization data"
    case MultipleProtection => "multiple access protection flags not allowed"
    case NoWorkingFunction => "cannot build a native kernel without a working function"
    case ExpectedArgsPointer => "expected arguments pointer"
    case ExpectedArgsSize => "expected arguments size"
    case UnexpectedMappings => "unexpected memory mappings"
    case ExpectedMappings => "expected memory mappings"
    case InvalidMemoryObject => "invalid memory object"
    case NotBuiltForDevice => "kernel not built for current device"
    case DifferentContext => "cannot enqueue a kernel into a command queue with a different context"
    case ArgsNotSpecified => "not all kernel arguments have been specified"
    case WorkDimsOutOfRange => "given work dimensions is out of range"
    case InvalidGlobalSize => "invalid global work size given"
    case GlobalSizeOutOfRange => "out of range global work size given"
    case OffsetOutOfRange => "given global offset shift work items out of range"
    case GroupSizeExceeds => "work group size exceed device limits"
    case GroupSizeNotDividing => "work group size does not divide number of work items"
    case GroupSizeMismatch => "work group size does not match the one requested by the kernel"
    case FixedLocalSizeRequired => "kernel requires fixed local work size"
    case DeviceNotInBuildContext => "device not associated with build context"
    case NoSourceOrBinary => "no program source/binary available"
    case BuildInProgress => "previously started build not yet terminated"
    case KernelsAttached => "cannot build a program with attached kernel[s]"
    case NoKernelDefinition => "no kernel definition"
    case SignaturesMismatch => "kernel signatures do not match"
    case NothingBuilt => "no program has been built"
    case NoProgramGiven => "no program given"
    case NullProgramGiven => "null program given"
    case ArgSizeMismatch => "kernel argument size does not match"
    case ArgContextMismatch => "buffer and kernel contexts does not match"
    case LocalPointerArg => "cannot set a local pointer"
    case ArgIndexTooLarge => "argument number exceed kernel argument count"
    case DeviceNotInContext => "device not associated with this context"
    case DeviceBufferAllocationFailed => "failed allocating resources for device buffer"
    case EventsOfOtherContext => "cannot wait for events of a different context"
    case NoNativeKernels => "device does not support native kernels"
  }
}
