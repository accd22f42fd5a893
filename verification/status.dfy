/** Kernel status codes (KSTATUS) and the result wrappers used by the model. */
module KernelStatus {

  /** The status codes the modelled routines produce or pass through.
      `Other` stands for any further failure a collaborator may report. */
  datatype Status =
    | Success
    | InvalidParameter
    | AccessDenied
    | NotSupported
    | InvalidHandle
    | NoEligibleDevices
    | InvalidAddressRange
    | OutOfAddressSpace
    | InsufficientResources
    | NoNetworkConnection
    | Other(code: nat)

  /** KSUCCESS(status). */
  predicate Succeeded(s: Status) {
    s == Success
  }

  /** A status that fails KSUCCESS. */
  type ErrorStatus = s: Status | s != Success witness InvalidParameter

  datatype Option<T> = None | Some(value: T)

  /** A value, or the failing status that replaced it. */
  datatype Result<T> = Ok(value: T) | Err(error: ErrorStatus)
}
