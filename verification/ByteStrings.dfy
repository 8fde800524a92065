/** Bytes, and numbers as strings of bytes, the least significant one first. */
module ByteStrings {
  const WORD_MODULUS := 0x1_0000_0000

  type byte = x: int | 0 <= x < 0x100

  /** The low bytes of a number; a negative one is taken in two's complement. */
  function Bytes(number: int, length: nat): (s: seq<byte>)
    ensures |s| == length
    decreases length
  {
    if length == 0 then [] else [number % 0x100] + Bytes(number / 0x100, length - 1)
  }
}
