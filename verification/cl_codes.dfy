/** The numeric codes of the OpenCL 1.1 host API that the runtime returns
    or stores, with the values the OpenCL 1.1 header gives them. Execution
    statuses are ordered from `CL_QUEUED` (3) down to `CL_COMPLETE` (0), and
    every error is negative (section 5.9 of the OpenCL 1.1 specification). */
module ClCodes {

  const CL_SUCCESS: int := 0
  const CL_DEVICE_NOT_FOUND: int := -1
  const CL_OUT_OF_RESOURCES: int := -5
  const CL_BUILD_PROGRAM_FAILURE: int := -11
  const CL_EXEC_STATUS_ERROR_FOR_EVENTS_IN_WAIT_LIST: int := -14
  const CL_INVALID_VALUE: int := -30
  const CL_INVALID_DEVICE_TYPE: int := -31
  const CL_INVALID_PLATFORM: int := -32
  const CL_INVALID_DEVICE: int := -33
  const CL_INVALID_CONTEXT: int := -34
  const CL_INVALID_HOST_PTR: int := -37
  const CL_INVALID_MEM_OBJECT: int := -38
  const CL_INVALID_BINARY: int := -42
  const CL_INVALID_PROGRAM_EXECUTABLE: int := -45
  const CL_INVALID_KERNEL_NAME: int := -46
  const CL_INVALID_KERNEL_DEFINITION: int := -47
  const CL_INVALID_KERNEL: int := -48
  const CL_INVALID_ARG_INDEX: int := -49
  const CL_INVALID_ARG_VALUE: int := -50
  const CL_INVALID_ARG_SIZE: int := -51
  const CL_INVALID_KERNEL_ARGS: int := -52
  const CL_INVALID_WORK_DIMENSION: int := -53
  const CL_INVALID_WORK_GROUP_SIZE: int := -54
  const CL_INVALID_GLOBAL_OFFSET: int := -56
  const CL_INVALID_EVENT_WAIT_LIST: int := -57
  const CL_INVALID_OPERATION: int := -59
  const CL_INVALID_BUFFER_SIZE: int := -61
  const CL_INVALID_GLOBAL_WORK_SIZE: int := -63
  const CL_INVALID_PROPERTY: int := -64

  // Execution statuses of commands and events.
  const CL_COMPLETE: int := 0
  const CL_RUNNING: int := 1
  const CL_SUBMITTED: int := 2
  const CL_QUEUED: int := 3

  // Program build statuses.
  const CL_BUILD_SUCCESS: int := 0
  const CL_BUILD_NONE: int := -1
  const CL_BUILD_ERROR: int := -2
  const CL_BUILD_IN_PROGRESS: int := -3

  /** The error codes above, as a set. */
  const ErrorCodes: set<int> := {
    CL_DEVICE_NOT_FOUND, CL_OUT_OF_RESOURCES, CL_BUILD_PROGRAM_FAILURE,
    CL_EXEC_STATUS_ERROR_FOR_EVENTS_IN_WAIT_LIST, CL_INVALID_VALUE,
    CL_INVALID_DEVICE_TYPE, CL_INVALID_PLATFORM, CL_INVALID_DEVICE,
    CL_INVALID_CONTEXT, CL_INVALID_HOST_PTR, CL_INVALID_MEM_OBJECT, CL_INVALID_BINARY,
    CL_INVALID_PROGRAM_EXECUTABLE, CL_INVALID_KERNEL_NAME,
    CL_INVALID_KERNEL_DEFINITION, CL_INVALID_KERNEL, CL_INVALID_ARG_INDEX,
    CL_INVALID_ARG_VALUE, CL_INVALID_ARG_SIZE, CL_INVALID_KERNEL_ARGS,
    CL_INVALID_WORK_DIMENSION, CL_INVALID_WORK_GROUP_SIZE,
    CL_INVALID_GLOBAL_OFFSET, CL_INVALID_EVENT_WAIT_LIST,
    CL_INVALID_OPERATION, CL_INVALID_BUFFER_SIZE,
    CL_INVALID_GLOBAL_WORK_SIZE, CL_INVALID_PROPERTY
  }

  // Device types (`cl_device_type`, a 64-bit bit field).
  const CL_DEVICE_TYPE_DEFAULT: bv64 := 1
  const CL_DEVICE_TYPE_CPU: bv64 := 2
  const CL_DEVICE_TYPE_GPU: bv64 := 4
  const CL_DEVICE_TYPE_ACCELERATOR: bv64 := 8
  const CL_DEVICE_TYPE_ALL: bv64 := 0xFFFF_FFFF

  // Context property names.
  const CL_CONTEXT_PLATFORM: int := 0x1084
}
