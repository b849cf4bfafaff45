/** Byte values and small helpers shared by the stdio and USB loader models. */
module Bytes {
  /** An 8-bit byte as the C code stores it in a `char` or `uint8_t`. */
  type Byte = b: int | 0 <= b < 256

  const NUL: Byte := 0
  const BS: Byte := 0x08
  const LF: Byte := 0x0A
  const CR: Byte := 0x0D
  const SPACE: Byte := 0x20
  const DEL: Byte := 0x7F

  datatype Option<T> = None | Some(value: T)

  function Min(a: int, b: int): int { if a <= b then a else b }

  /** The bytes of a C string: everything before the first NUL. */
  function UpToNul(s: seq<Byte>): (r: seq<Byte>)
    ensures |r| <= |s| && r == s[..|r|]
    ensures NUL !in r && forall k :: 0 <= k < |r| ==> s[k] != NUL
    ensures |r| < |s| ==> s[|r|] == NUL
  {
    if s == [] || s[0] == NUL then [] else [s[0]] + UpToNul(s[1..])
  }
}
