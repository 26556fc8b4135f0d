/** 64-bit division out of a 64-by-32 divide instruction (pintos_pro3/src/lib/arithmetic.c).
    Machine words are modelled as integers with explicit truncation. */
module Division {
  import opened Arith
  import opened Machine

  function Pow2(n: nat): (p: int)
    ensures p >= 1
  {
    if n == 0 then 1 else 2 * Pow2(n - 1)
  }

  lemma {:induction false} Pow2Add(a: nat, b: nat)
    ensures Pow2(a + b) == Pow2(a) * Pow2(b)
  {
    if a > 0 {
      Pow2Add(a - 1, b);
      assert Pow2(a) * Pow2(b) == 2 * (Pow2(a - 1) * Pow2(b));
    }
  }

  lemma Pow2Values()
    ensures Pow2(1) == 2 && Pow2(2) == 4 && Pow2(4) == 16 && Pow2(8) == 256 && Pow2(16) == 0x1_0000
    ensures Pow2(31) == 0x8000_0000 && Pow2(32) == B32
  {
    assert Pow2(4) == 16;
    Pow2Add(4, 4);
    Pow2Add(8, 8);
    Pow2Add(16, 16);
    assert Pow2(32) == 2 * Pow2(31);
  }

  /** The `divl` instruction. It traps unless the quotient fits in 32 bits, so a call may only be
      made where that holds. */
  function Divl(n: U64, d: U32): (q: U32)
    requires d > 0 && n / d < B32
  {
    n / d
  }

  // ----- nlz -----

  /** One binary-search step of `nlz`: shift by `w` when the top `w` bits are clear. */
  method ShiftIfClear(x0: int, x: int, n: nat, w: nat, limit: int) returns (y: int, m: nat)
    requires x == x0 * Pow2(n) && x < B32 && limit * Pow2(w) == B32 && limit <= x * Pow2(w)
    ensures y == x0 * Pow2(m) && limit <= y < B32 && m <= n + w
  {
    y, m := x, n;
    if x <= limit - 1 {
      m := m + w;
      y := y * Pow2(w);
      Pow2Add(n, w);
      assert x * Pow2(w) == x0 * (Pow2(n) * Pow2(w));
      MulLess(x, limit, Pow2(w));
    }
  }

  /** `nlz`: the shift that brings the leading one to bit 31. */
  method Nlz(x0: U32) returns (n: nat)
    requires x0 > 0
    ensures n <= 31 && 0x8000_0000 <= x0 * Pow2(n) < B32
  {
    Pow2Values();
    var x: int := x0;
    n := 0;
    assert x == x0 * Pow2(0);
    x, n := ShiftIfClear(x0, x, n, 16, 0x1_0000);
    x, n := ShiftIfClear(x0, x, n, 8, 0x100_0000);
    x, n := ShiftIfClear(x0, x, n, 4, 0x1000_0000);
    x, n := ShiftIfClear(x0, x, n, 2, 0x4000_0000);
    x, n := ShiftIfClear(x0, x, n, 1, 0x8000_0000);
  }

  // ----- small divisors -----

  /** Schoolbook division by one 32-bit digit. */
  lemma SmallDivisor(n: U64, d: U32)
    requires d > 0
    ensures var n1, n0 := n / B32, n % B32;
            var low := B32 * (n1 % d) + n0;
            && 0 <= low < B64 && low / d < B32
            && low / d + B32 * (n1 / d) == n / d
  {
    var n1, n0 := n / B32, n % B32;
    var low := B32 * (n1 % d) + n0;
    assert low <= B32 * (d - 1) + B32 - 1;
    assert low < B32 * d;
    var q := low / d;
    assert low == q * d + low % d;
    if q >= B32 {
      MulMono(B32, q, d);
    }
    assert n1 == (n1 / d) * d + n1 % d;
    assert n == B32 * n1 + n0;
    assert B32 * ((n1 / d) * d) == (B32 * (n1 / d)) * d;
    assert (q + B32 * (n1 / d)) * d == q * d + (B32 * (n1 / d)) * d;
    DivModUnique(n, q + B32 * (n1 / d), low % d, d);
  }

  // ----- large divisors: the Hacker's Delight estimate -----

  lemma NoOverflow(d: U64, a: int, b: int)
    requires d >= B32 && a >= 1 && b >= 1 && a * b == B32 && (d / B32) * a < B32
    ensures d * a < B64
  {
    var d1 := d / B32;
    if d1 >= b {
      MulMono(b, d1, a);
    }
    assert d < (d1 + 1) * B32;
    MulLess(d, b * B32, a);
    assert (b * B32) * a == (a * b) * B32;
  }

  lemma HighWordLarge(d: U64, a: int)
    requires a >= 1 && 0x8000_0000 <= (d / B32) * a
    ensures 0x8000_0000 <= d * a / B32
  {
    var d1 := d / B32;
    assert (d1 * a) * B32 == (d1 * B32) * a;
    MulMono(d1 * B32, d, a);
    DivAtLeast(d * a, B32, d1 * a);
  }

  lemma HighWordIs(d: U64, a: int, b: int)
    requires a >= 1 && b >= 1 && a * b == B32
    ensures d * a / B32 == d / b
  {
    MulNonNeg(d, a);
    DivDiv(d * a, a, b);
    DivModUnique(d * a, d, 0, a);
  }

  /** Shifting the divisor up by `s` and keeping its high word is shifting it down by 32 - s. */
  lemma Normalized(d: U64, s: nat)
    requires d >= B32 && s <= 31 && 0x8000_0000 <= (d / B32) * Pow2(s) < B32
    ensures d * Pow2(s) < B64
    ensures var v := d * Pow2(s) / B32;
            0x8000_0000 <= v < B32 && v == d / Pow2(32 - s)
  {
    var a, b := Pow2(s), Pow2(32 - s);
    assert a * b == B32 by {
      Pow2Values();
      Pow2Add(s, 32 - s);
    }
    NoOverflow(d, a, b);
    DivLess(d * a, B32, B32);
    HighWordLarge(d, a);
    HighWordIs(d, a, b);
  }

  lemma ThreeDivisions(n: int, v: int, h: int)
    requires n >= 0 && v >= 1 && h >= 1
    ensures v * (2 * h) >= 1 && ((n / 2) / v) / h == n / (v * (2 * h))
  {
    DivDiv(n, 2, v);
    DivDiv(n, 2 * v, h);
    assert (2 * v) * h == v * (2 * h);
  }

  /** The two shifts around the divide amount to one division by v * 2^(32 - s). */
  lemma EstimateIs(n: U64, v: int, s: nat)
    requires s <= 31 && v >= 1
    ensures v * Pow2(32 - s) >= 1
    ensures ((n / 2) / v) / Pow2(31 - s) == n / (v * Pow2(32 - s))
  {
    assert Pow2(32 - s) == 2 * Pow2(31 - s);
    ThreeDivisions(n, v, Pow2(31 - s));
  }

  /** The true quotient is below 2^(s + 1). */
  lemma QuotientBound(n: U64, d: U64, a: int, b: int, v: int)
    requires d >= 1 && a >= 1 && b >= 1 && a * b == B32 && v >= 0x8000_0000 && v * b <= d
    ensures n / d + 1 <= 2 * a
  {
    MulMono(0x8000_0000, v, b);
    MulMono(0x8000_0000 * b, d, 2 * a);
    assert (0x8000_0000 * b) * (2 * a) == 0x1_0000_0000 * (a * b);
    assert d * (2 * a) == (2 * a) * d;
    DivLess(n, d, 2 * a);
  }

  /** The estimate with the truncated divisor e = v * b is the true quotient or one more. */
  lemma EstimateOffByOne(n: U64, d: U64, a: int, b: int, v: int)
    requires d >= 1 && a >= 1 && a * b == B32 && v >= 0x8000_0000 && v == d / b
    requires b >= 4 || (b == 2 && a == 0x8000_0000)
    ensures v * b >= 1
    ensures n / d <= n / (v * b) <= n / d + 1
  {
    var e := v * b;
    assert d == e + d % b;
    MulMono(0x8000_0000, v, b);
    DivAntitone(n, d, e);
    QuotientBound(n, d, a, b, v);
    var q, gap := n / d, d - e;
    // (q + 1) * (d - e) <= 2a * (b - 1) <= e
    GapIsSmall(q + 1, gap, a, b);
    assert (q + 1) * gap <= e;
    OneTooMany(n, d, e, q);
    DivLess(n, e, q + 2);
  }

  lemma GapIsSmall(q: int, gap: int, a: int, b: int)
    requires q <= 2 * a && 0 <= gap <= b - 1 && a >= 1 && a * b == B32
    ensures q * gap <= 2 * B32 - 2 * a
  {
    MulMono(q, 2 * a, gap);
    MulMono(gap, b - 1, 2 * a);
    assert gap * (2 * a) == (2 * a) * gap;
    assert (b - 1) * (2 * a) == 2 * (a * b) - 2 * a;
  }

  lemma OneTooMany(n: int, d: int, e: int, q: int)
    requires d >= 1 && q == n / d && (q + 1) * (d - e) <= e
    ensures n < (q + 2) * e
  {
    assert n == q * d + n % d;
    Distribute(q + 1, d, e);
    Distribute(d, q + 1, 1);
    Distribute(e, q + 2, 1);
  }

  lemma Distribute(x: int, y: int, z: int)
    ensures x * (y - z) == x * y - x * z
  {
  }

  /** The branch for divisors of one word. */
  method BySmall(n: U64, d0: U32) returns (q: U64)
    requires d0 > 0
    ensures q == n / d0
  {
    SmallDivisor(n, d0);
    var n1, n0 := n / B32, n % B32;
    var low := Divl(B32 * (n1 % d0) + n0, d0);
    DivLess(n, d0, B64) by {
      MulMono(1, d0, B64);
    }
    DivAtLeast(n, d0, 0);
    q := low + B32 * (n1 / d0);
  }

  /** `udiv64`: the floor of n / d, with every `divl` inside its domain. */
  method Udiv64(n: U64, d: U64) returns (q: U64)
    requires d > 0
    ensures q == n / d
  {
    if d / B32 == 0 {
      q := BySmall(n, d);
    } else if n < d {
      DivLess(n, d, 1);
      DivAtLeast(n, d, 0);
      q := 0;
    } else {
      var s := Nlz(d / B32);
      var v := ShiftedHigh(d, s);
      var est := Estimate(n, d, s, v);
      q := Correct(n, d, est);
    }
  }

  lemma SmallModulo(x: nat, m: nat)
    requires x < m
    ensures x % m == x
  {
  }

  /** (d << s) >> 32 in 64-bit arithmetic. */
  method ShiftedHigh(d: U64, s: nat) returns (v: U32)
    requires d >= B32 && s <= 31 && 0x8000_0000 <= (d / B32) * Pow2(s) < B32
    ensures v >= 0x8000_0000 && v == d / Pow2(32 - s)
  {
    Normalized(d, s);
    var shifted: nat := d * Pow2(s);
    SmallModulo(shifted, B64);
    v := (shifted % B64) / B32;
  }

  /** divl (n >> 1, v) >> (31 - s). */
  method Estimate(n: U64, d: U64, s: nat, v: U32) returns (est: U64)
    requires B32 <= d <= n && s <= 31 && v >= 0x8000_0000 && v == d / Pow2(32 - s)
    ensures n / d <= est <= n / d + 1
  {
    var half := n / 2;
    DivlFits(half, v);
    var q1 := Divl(half, v);
    DivShrinks(q1, Pow2(31 - s));
    est := q1 / Pow2(31 - s);
    EstimateIs(n, v, s);
    ShiftSplits(s);
    EstimateOffByOne(n, d, Pow2(s), Pow2(32 - s), v);
  }

  /** A divisor with its top bit set cannot trap on half of a 64-bit number. */
  lemma DivlFits(half: int, v: int)
    requires 0 <= half < 0x8000_0000_0000_0000 && v >= 0x8000_0000
    ensures half / v < B32
  {
    DivAntitone(half, v, 0x8000_0000);
  }

  lemma DivShrinks(q: int, p: int)
    requires q >= 0 && p >= 1
    ensures 0 <= q / p <= q
  {
    DivAntitone(q, p, 1);
    DivAtLeast(q, p, 0);
  }

  lemma ShiftSplits(s: nat)
    requires s <= 31
    ensures Pow2(s) * Pow2(32 - s) == B32
    ensures Pow2(32 - s) >= 4 || (Pow2(32 - s) == 2 && Pow2(s) == 0x8000_0000)
  {
    Pow2Add(s, 32 - s);
    Pow2Values();
    if s < 31 {
      assert Pow2(32 - s) == 4 * Pow2(30 - s);
    }
  }

  /** The correction step, in wrapping 64-bit arithmetic. */
  method Correct(n: U64, d: U64, est: U64) returns (q: U64)
    requires 0 < d <= n && n / d <= est <= n / d + 1
    ensures q == n / d
  {
    var t := n / d;
    assert n == t * d + n % d;
    assert t >= 1 by {
      if t <= 0 {
        MulMono(t, 0, d);
      }
    }
    assert (t - 1) * d == t * d - d;
    MulNonNeg(t - 1, d);
    var rest := (n - (est - 1) * d) % B64;
    q := if rest < d then est - 1 else est;
  }

  // ----- remainders and signs -----

  /** What `umod64` can return of the remainder: its low 32 bits. */
  function LowWordMod(n: U64, d: U64): int
    requires d > 0
  {
    (n % d) % B32
  }

  /** `umod64` returns 32 bits: the remainder, cut to its low word. */
  method Umod64(n: U64, d: U64) returns (r: U32)
    requires d > 0
    ensures r == LowWordMod(n, d)
    ensures r == n % d <==> n % d < B32
  {
    var q := Udiv64(n, d);
    assert n == q * d + n % d;
    assert (n - d * q) % B64 == n % d;
    r := ((n - d * q) % B64) % B32;
  }

  /** So the result is right for every dividend exactly when the divisor is at most 2^32. */
  lemma UmodExact(d: U64)
    requires d > 0
    ensures (forall n: U64 :: LowWordMod(n, d) == n % d) <==> d <= B32
  {
    if d > B32 {
      var n: U64 := d - 1;
      DivModUnique(n, 0, n, d);
      assert LowWordMod(n, d) != n % d;
    }
  }

  /** C's remainder for that quotient. */
  function Rem(n: int, d: int): int
    requires d != 0
  {
    n - d * Trunc(n, d)
  }

  /** Truncation gives the remainder that is smaller than the divisor and has the dividend's sign. */
  lemma TruncLaw(n: int, d: int)
    requires d != 0
    ensures Rem(n, d) == if n >= 0 then Abs(n) % Abs(d) else -(Abs(n) % Abs(d))
    ensures Abs(Rem(n, d)) < Abs(d)
  {
    var m, e := Abs(n), Abs(d);
    var q := m / e;
    assert m == e * q + m % e;
    Signs(e, q);
    assert d * Trunc(n, d) == if n >= 0 then e * q else -(e * q);
  }

  lemma Signs(a: int, b: int)
    ensures (-a) * (-b) == a * b && (-a) * b == -(a * b) && a * (-b) == -(a * b)
  {
  }

  /** `sdiv64`, with the cast and the negation wrapping: wrong only where the true quotient is
      not representable. */
  method Sdiv64(n: S64, d: S64) returns (q: S64)
    requires d != 0
    ensures q == Signed64(Trunc(n, d))
    ensures q == Trunc(n, d) <==> !(n == -B63 && d == -1)
  {
    var qAbs := Udiv64(Abs(n), Abs(d));
    QuotientRange(Abs(n), Abs(d));
    q := ApplySign(qAbs, (n < 0) == (d < 0));
  }

  /** (int64_t) q or -(int64_t) q. */
  method ApplySign(q: int, positive: bool) returns (r: S64)
    requires 0 <= q <= B63
    ensures r == Signed64(if positive then q else -q)
    ensures r == (if positive then q else -q) <==> !(positive && q == B63)
  {
    var cast: int := Signed64(q);
    r := if positive then cast else Signed64(-cast);
  }

  lemma QuotientRange(n: int, d: int)
    requires 0 <= n <= B63 && d >= 1
    ensures 0 <= n / d <= B63
    ensures n / d == B63 <==> n == B63 && d == 1
  {
    DivAtLeast(n, d, 0);
    DivAntitone(n, d, 1);
    if d >= 2 {
      DivAntitone(n, d, 2);
    }
  }

  /** `smod64` returns 32 bits: the remainder with the dividend's sign, cut to a signed word. */
  method Smod64(n: S64, d: S64) returns (r: int)
    requires d != 0
    ensures r == Signed32(Rem(n, d))
    ensures r == Rem(n, d) <==> -0x8000_0000 <= Rem(n, d) < 0x8000_0000
  {
    var q := Sdiv64(n, d);
    ProductFits(n, d, q);
    r := Signed32(Signed64(n - Signed64(d * q)));
  }

  lemma WrapBack(n: S64, t: int)
    requires -B63 <= t <= B63 && -B63 <= n - t < B63
    ensures Signed64(n - Signed64(t)) == n - t
  {
  }

  /** No wrap-around in n - d * q survives, not even for the one unrepresentable quotient. */
  lemma ProductFits(n: S64, d: S64, q: S64)
    requires d != 0 && q == Signed64(Trunc(n, d))
    requires q == Trunc(n, d) <==> !(n == -B63 && d == -1)
    ensures Signed64(n - Signed64(d * q)) == Rem(n, d)
  {
    if n == -B63 && d == -1 {
      assert Rem(n, d) == 0;
    } else {
      var t := d * Trunc(n, d);
      assert -B63 <= t <= B63 && -B63 <= n - t < B63 by {
        TruncLaw(n, d);
        RemAtMost(Abs(n), Abs(d));
      }
      WrapBack(n, t);
    }
  }

  lemma RemAtMost(n: int, d: int)
    requires n >= 0 && d >= 1
    ensures n % d <= n
  {
    DivAtLeast(n, d, 0);
    MulNonNeg(n / d, d);
    assert n == (n / d) * d + n % d;
  }

  /** The signed remainder is right for every dividend exactly when |d| is at most 2^31. */
  lemma SmodExact(d: S64)
    requires d != 0
    ensures (forall n: S64 :: Signed32(Rem(n, d)) == Rem(n, d)) <==> Abs(d) <= 0x8000_0000
  {
    if Abs(d) > 0x8000_0000 {
      var n: S64 := Abs(d) - 1;
      TruncLaw(n, d);
      DivModUnique(n, 0, n, Abs(d));
      assert Signed32(Rem(n, d)) != Rem(n, d);
    } else {
      forall n: S64 ensures Signed32(Rem(n, d)) == Rem(n, d) {
        TruncLaw(n, d);
      }
    }
  }
}
