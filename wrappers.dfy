/** Results of operations that can raise, and the exceptions they raise. */
module Wrappers {

  datatype Option<+T> = None | Some(value: T)

  /** The Python exceptions raised by the modelled code. */
  datatype Error =
    | InvalidFrameLength              // ValueError("Invalid frame length")
    | UnknownSensorType(name: string) // KeyError from a sensor-type table lookup
    | StructError                     // struct.error: a value does not fit its format
    | NegativeSleepLength             // ValueError from time.sleep: the length is negative

  datatype Result<+T> = Ok(value: T) | Err(error: Error) {
    predicate IsFailure() { Err? }

    function PropagateFailure<U>(): Result<U>
      requires Err?
    {
      Err(error)
    }

    function Extract(): T
      requires Ok?
    {
      value
    }
  }
}
