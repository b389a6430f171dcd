/** Small result types shared by the models. */
module Wrappers {

  datatype Option<+T> = None | Some(value: T)

  /** An endpoint's answer: the new state, or the error code it rejects with. */
  datatype Result<+T> = Ok(value: T) | Err(code: nat)

  function Max(a: int, b: int): (m: int)
    ensures m >= a && m >= b && (m == a || m == b)
  {
    if a >= b then a else b
  }

  function Min(a: int, b: int): (m: int)
    ensures m <= a && m <= b && (m == a || m == b)
  {
    if a <= b then a else b
  }
}
