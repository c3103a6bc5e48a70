/** Failure-carrying values shared by every module of the model: Go's `(T, error)`
    pairs and nil-able values become `Result` and `Option`. */
module Wrappers {

  /** A value that may be absent (Go's nil). */
  datatype Option<+T> = None | Some(value: T)

  /** A value or the error that replaced it. */
  datatype Result<+T, +E> = Ok(value: T) | Err(error: E)

  /** Go's zero-value defaulting: a setting left at 0 takes the default `d`, any other
      value stays. */
  function OrDefault(v: int, d: int): (r: int)
    ensures v == 0 ==> r == d
    ensures v != 0 ==> r == v
  {
    if v == 0 then d else v
  }
}
