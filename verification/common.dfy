/** Small shared vocabulary: an optional value, standing for JavaScript's
    `null`/`undefined` wherever the application tests a value for presence. */
module Common {

  datatype Option<+T> = None | Some(value: T) {

    /** The value if present, else `default` (JavaScript's `x || default`
        for values that are only ever absent or truthy). */
    function GetOr(default: T): T {
      match this
      case Some(v) => v
      case None => default
    }
  }

  function Min(a: int, b: int): int {
    if a <= b then a else b
  }

  function Max(a: int, b: int): int {
    if a <= b then b else a
  }
}
