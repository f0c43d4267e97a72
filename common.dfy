/** Shared vocabulary of the employee API model: optional (nullable) values,
    the 32-bit `int` of the source, the whitespace and substring tests the
    validators and the list filters rely on, and the shape of a validation
    failure. */
module Common {

  /** A nullable reference or nullable value (`string?`, `int?`). */
  datatype Option<+T> = None | Some(value: T)

  /** The C# `int`: a two's-complement 32-bit integer. */
  type Int32 = x: int | -0x8000_0000 <= x < 0x8000_0000

  const Int32Max: int := 0x7fff_ffff
  const Int32Min: int := -0x8000_0000

  /** Unchecked C# `int` arithmetic: the mathematical result reduced into the
      32-bit range. */
  function Wrap32(x: int): (r: Int32)
    ensures (x - r) % 0x1_0000_0000 == 0
    ensures Int32Min <= x <= Int32Max ==> r == x
  {
    (x - Int32Min) % 0x1_0000_0000 + Int32Min
  }

  /** The characters treated as white space (a fixed ASCII set). */
  predicate IsWhiteSpace(c: char) {
    c == ' ' || c == '\t' || c == '\n' || c == '\r' || c == '\U{000B}' || c == '\U{000C}'
  }

  /** `string.IsNullOrWhiteSpace`. */
  predicate IsNullOrWhiteSpace(s: Option<string>) {
    s.None? || forall k :: 0 <= k < |s.value| ==> IsWhiteSpace(s.value[k])
  }

  /** `hay.Contains(needle)`: `needle` occurs in `hay` as a contiguous block. */
  predicate Contains(hay: string, needle: string)
    decreases |hay|
  {
    |needle| <= |hay| && (hay[..|needle|] == needle || Contains(hay[1..], needle))
  }

  /** One entry of a validator's result: the property that failed and its message. */
  datatype ValidationFailure = ValidationFailure(propertyName: string, errorMessage: string)
}
