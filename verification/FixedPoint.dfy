/** The 16.16 fixed-point macros of pintos-GDB/src/threads/fixed-point.h, on 32-bit words that wrap. */
module FixedPoint {
  import opened Machine

  const ONE := 0x1_0000
  const HALF := 0x8000

  function Const(a: int): int { Signed32(a * ONE) }
  function Add(a: int, b: int): int { Signed32(a + b) }
  function AddMix(a: int, b: int): int { Signed32(a + Signed32(b * ONE)) }
  function Sub(a: int, b: int): int { Signed32(a - b) }
  function SubMix(a: int, b: int): int { Signed32(a - Signed32(b * ONE)) }
  function MultMix(a: int, b: int): int { Signed32(a * b) }
  function DivMix(a: int, b: int): int requires b > 0 { Trunc(a, b) }

  /** The product is formed in 64 bits and shifted down arithmetically. */
  function Mult(a: int, b: int): int { Signed32(a * b / ONE) }

  /** The dividend is shifted up in 64 bits. */
  function Div(a: int, b: int): int requires b > 0 { Signed32(Trunc(a * ONE, b)) }

  function IntPart(a: int): int { a / ONE }

  /** FP_ROUND: shift after adding or subtracting one half. */
  function Round(a: int): int {
    if a >= 0 then Signed32(a + HALF) / ONE else Signed32(a - HALF) / ONE
  }

  /** The nearest integer, halves away from zero. */
  function Nearest(a: int): int {
    if a >= 0 then (a + HALF) / ONE else -((-a + HALF) / ONE)
  }

  lemma WrapId(x: int)
    requires Fits32(x)
    ensures Signed32(x) == x
  {
  }

  /** Over all words, rounding is right exactly for nonnegative values that one half does not push
      over the top, and for negative halves that one half does not push under the bottom. */
  lemma RoundExact(a: S32)
    ensures Round(a) == Nearest(a) <==> RoundsRight(a)
    ensures -B31 + HALF <= a < 0 && a % ONE != HALF ==> Round(a) == Nearest(a) - 1
    ensures Round(-ONE) == -2 && Nearest(-ONE) == -1
  {
    var n: int := a;
    NegFloor(HALF - n);
    if a >= B31 - HALF {
      assert Signed32(a + HALF) == a + HALF - B32;
    } else if a < -B31 + HALF {
      assert Signed32(a - HALF) == a - HALF + B32;
    }
  }

  predicate RoundsRight(a: int) {
    0 <= a < B31 - HALF || (-B31 + HALF <= a < 0 && a % ONE == HALF)
  }

  lemma NegFloor(x: int)
    ensures -x / ONE == if x % ONE == 0 then -(x / ONE) else -(x / ONE) - 1
  {
  }
}
