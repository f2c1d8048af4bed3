/** Optional values and the ways one step of the interpreter can end without a result. */
module Outcomes {

  datatype Option<T> = None | Some(value: T)

  /** `ReturnWithEmptyStack` is the one error the executor returns as a value; the others
      are Rust panics, which end the process (a debug build checks integer overflow). */
  datatype Fault =
    | ReturnWithEmptyStack
    | IndexOutOfBounds
    | ArithmeticOverflow
    | UnwrapOnNone

  datatype Result<T> = Ok(value: T) | Err(fault: Fault)
}
