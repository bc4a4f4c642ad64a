/**
  Shared vocabulary of the runtime: fixed-width integers, process names,
  return codes and the numeric job and process state values.

  The numeric state values live in PRRTE's state-type header, which is not
  part of this model; the values below follow that header's layout, and every
  proof in the project uses only their relative order (a "boundary" value
  UNTERMINATED below TERMINATED below ERROR, the abnormal states above ERROR).
*/
module Types {

  datatype Option<T> = None | Some(value: T)

  type uint8 = x: int | 0 <= x < 0x100
  type uint32 = x: int | 0 <= x < 0x1_0000_0000

  /** A process identity: namespace (job) and rank within it. */
  datatype ProcName = ProcName(nspace: string, rank: uint32)

  /** PMIx's invalid-rank sentinel (PMIX_RANK_INVALID = UINT32_MAX - 3). */
  const RANK_INVALID: uint32 := 0xFFFF_FFFC
  /** PMIx's wildcard rank (PMIX_RANK_WILDCARD = UINT32_MAX - 1). */
  const RANK_WILDCARD: uint32 := 0xFFFF_FFFE

  /** The runtime's return codes that this model distinguishes; any other error is `ErrOther`. */
  datatype Status =
    | Success
    | ErrBadParam
    | ErrNotFound
    | ErrNotAvailable
    | ErrOutOfResource
    | ErrNoPathToTarget
    | ErrAddresseeUnknown
    | ErrNetworkNotParseable
    | ErrOther(code: int)

  /**
    Namespace comparison as PMIx performs it (PMIX_CHECK_NSPACE): an empty
    (invalid) namespace on either side matches every namespace.
  */
  predicate CheckNspace(a: string, b: string) {
    a == "" || b == "" || a == b
  }

  // ---- job states ----
  const JOB_STATE_RUNNING: int := 14
  const JOB_STATE_REGISTERED: int := 16
  const JOB_STATE_STARTED: int := 19
  const JOB_STATE_REPORT_PROGRESS: int := 20
  /** Boundary: a job state below this one has not terminated. */
  const JOB_STATE_UNTERMINATED: int := 30
  const JOB_STATE_TERMINATED: int := 31
  const JOB_STATE_DAEMONS_TERMINATED: int := 33
  const JOB_STATE_NOTIFY_COMPLETED: int := 34
  const JOB_STATE_NOTIFIED: int := 35
  /** Boundary: a job state above this one is an abnormal termination. */
  const JOB_STATE_ERROR: int := 50
  const JOB_STATE_KILLED_BY_CMD: int := 51
  /** Registry sentinel: the catch-all handler. */
  const JOB_STATE_ANY: int := 0x7FFF_FFFF

  // ---- proc states ----
  const PROC_STATE_RUNNING: int := 4
  const PROC_STATE_REGISTERED: int := 5
  const PROC_STATE_IOF_COMPLETE: int := 6
  const PROC_STATE_WAITPID_FIRED: int := 7
  /** Boundary: a proc state below this one has not terminated. */
  const PROC_STATE_UNTERMINATED: int := 15
  const PROC_STATE_TERMINATED: int := 20
  /** Boundary: a proc state above this one is an abnormal termination. */
  const PROC_STATE_ERROR: int := 50
  const PROC_STATE_UNABLE_TO_SEND_MSG: int := 64
  const PROC_STATE_NO_PATH_TO_TARGET: int := 66
  const PROC_STATE_PEER_UNKNOWN: int := 68
  /** Registry sentinel: the catch-all handler. */
  const PROC_STATE_ANY: int := 0x7FFF_FFFF
}
