/** Reason codes and action flags of the unwinding interface (src/abi.rs). */
module Abi {
  /** `Aborted` is not a code: it stands for a callback that panics and so never returns. */
  datatype ReasonCode =
    | NoReason
    | ForeignExceptionCaught
    | FatalPhase2Error
    | FatalPhase1Error
    | NormalStop
    | EndOfStack
    | HandlerFound
    | InstallContext
    | ContinueUnwind
    | Aborted

  datatype Action = SearchPhase | CleanupPhase | HandlerFrame | ForceUnwind | AtEndOfStack
}
