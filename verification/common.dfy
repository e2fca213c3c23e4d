/** Small failure-compatible wrappers shared by both components. */
module Common {

  /** An optional value: the model of Rust's `Option`. */
  datatype Option<+T> = None | Some(value: T)

  /** A value or an error: the model of Rust's `Result`, and of a panic where
      the source asserts on an argument supplied by its caller. */
  datatype Result<+T, +E> = Ok(value: T) | Err(error: E)

  function Max(a: int, b: int): (r: int)
    ensures r >= a && r >= b && (r == a || r == b)
  {
    if a >= b then a else b
  }

  function Min(a: int, b: int): (r: int)
    ensures r <= a && r <= b && (r == a || r == b)
  {
    if a <= b then a else b
  }
}
