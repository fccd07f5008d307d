/** Optional values, the errors the host can see, and results carrying them. */
module Outcomes {

  datatype Option<T> = None | Some(value: T)

  /** The thrown values the fault handler distinguishes: the three WebAssembly
      error classes, the application-defined Wasm4Error, a RangeError raised by
      a typed-array view or DataView access, any other Error, and a thrown value
      that is not an Error at all. */
  datatype Fault =
    | RuntimeError(message: string)
    | LinkError
    | CompileError
    | Wasm4Error(wasm4Message: string)
    | RangeError
    | OtherError
    | NotAnError
  {
    /** `err instanceof Error` */
    predicate IsError()
    {
      !NotAnError?
    }
  }

  datatype Result<T> = Ok(value: T) | Err(fault: Fault)
}
