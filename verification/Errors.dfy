/** The return codes of err.h. */
module Errors {
  datatype Status =
    | Ok
    | Fail
    | UnknownFlashId
    | ReadUnaligned
    | WriteUnaligned
    | ReadError
    | WriteError
    | NotSupported
    | InvalidArg
    | Timeout
}
