/** Types shared by the stores and the two tables. */
module Common {

  /** JavaScript strings, as sequences of characters. */
  type Str = seq<char>

  /** A value that may be missing: `undefined` or `null` on the JavaScript side. */
  datatype Option<+T> = None | Some(value: T)

  function Min(a: int, b: int): int { if a <= b then a else b }

  function Max(a: int, b: int): int { if a >= b then a else b }
}
