/** Machine arithmetic: words as integers, with wrap-around and truncation written out. */
module Machine {

  const B31: int := 0x8000_0000
  const B32: int := 0x1_0000_0000
  const B63: int := 0x8000_0000_0000_0000
  const B64: int := 0x1_0000_0000_0000_0000

  type Byte = x: int | 0 <= x < 256
  type U32 = x: int | 0 <= x < 0x1_0000_0000
  type U64 = x: int | 0 <= x < 0x1_0000_0000_0000_0000
  type S32 = x: int | -0x8000_0000 <= x < 0x8000_0000
  type S64 = x: int | -0x8000_0000_0000_0000 <= x < 0x8000_0000_0000_0000

  predicate Fits32(x: int) {
    -B31 <= x < B31
  }

  /** Reinterpretation of an integer as a two's-complement word. */
  function Signed32(x: int): S32 {
    (x + B31) % B32 - B31
  }

  function Signed64(x: int): S64 {
    (x + B63) % B64 - B63
  }

  function Abs(x: int): int {
    if x >= 0 then x else -x
  }

  /** C's quotient: truncated toward zero. */
  function Trunc(n: int, d: int): int
    requires d != 0
  {
    var q := Abs(n) / Abs(d);
    if (n < 0) == (d < 0) then q else -q
  }
}
