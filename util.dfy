/** Small shared vocabulary: an optional value and integer maxima. */
module Util {

  /** Stands in for a nullable pointer or string of the C++ source. */
  datatype Option<+T> = None | Some(value: T)

  function Max(a: int, b: int): (r: int)
    ensures r >= a && r >= b
    ensures r == a || r == b
  {
    if a < b then b else a
  }
}
