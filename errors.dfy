/** The exceptions the controller raises. */
module GdbErrors {

  /** Why `verify_valid_gdb_subprocess` refuses: no process object, or one that has already exited. */
  datatype NoProcessReason = NotAttached | AlreadyFinished(returnCode: int)

  datatype Error =
    | NoGdbProcess(reason: NoProcessReason)   // NoGdbProcessError
    | GdbTimeout(timeoutSec: real)            // GdbTimeoutError, carrying the (clamped) timeout it reports
    | TypeError(typeName: string)             // a command that is neither a str nor a list
    | UnexpectedFileno(fd: int)               // ValueError: select reported a descriptor the controller does not own
}
