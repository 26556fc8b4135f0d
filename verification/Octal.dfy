/** Octal text: the zero-padded `%o` conversion of pintos_pro3/src/lib/stdio.c and the field parser
    of pintos_pro3/src/lib/ustar.c, tied together by the value of a digit string. */
module Octal {

  import opened Machine

  datatype Option<T> = None | Some(value: T)

  const ULONG_MAX: int := 0xFFFF_FFFF

  predicate Digit(c: Byte) {
    '0' as int <= c <= '7' as int
  }

  ghost predicate Digits(s: seq<Byte>) {
    forall i :: 0 <= i < |s| ==> Digit(s[i])
  }

  function Pow8(n: nat): (r: nat)
    ensures r >= 1
  {
    if n == 0 then 1 else 8 * Pow8(n - 1)
  }

  /** The number a string of octal digits denotes, most significant digit first. */
  ghost function Value(s: seq<Byte>): (v: nat)
    requires Digits(s)
  {
    if s == [] then 0 else 8 * Value(s[..|s| - 1]) + (s[|s| - 1] - '0' as int)
  }

  /** The same digits, least significant first, as the conversion buffer holds them. */
  ghost function Reversed(s: seq<Byte>): (v: nat)
    requires Digits(s)
  {
    if s == [] then 0 else (s[|s| - 1] - '0' as int) * Pow8(|s| - 1) + Reversed(s[..|s| - 1])
  }

  lemma {:induction false} ValuePush(s: seq<Byte>, c: Byte)
    requires Digits(s) && Digit(c)
    ensures Digits(s + [c]) && Value(s + [c]) == 8 * Value(s) + (c - '0' as int)
  {
    assert (s + [c])[..|s|] == s;
  }

  lemma {:induction false} ReversedPush(s: seq<Byte>, c: Byte)
    requires Digits(s) && Digit(c)
    ensures Digits(s + [c]) && Reversed(s + [c]) == (c - '0' as int) * Pow8(|s|) + Reversed(s)
  {
    assert (s + [c])[..|s|] == s;
  }

  /** The value digit by digit. */
  lemma {:induction false} ValueNext(s: seq<Byte>, i: nat, next: nat)
    requires Digits(s) && i < |s| && next == i + 1
    ensures Value(s[..next]) == 8 * Value(s[..i]) + (s[i] - '0' as int)
  {
    assert s[..next][..i] == s[..i];
  }

  /** The value of the first three digits, and of four more. */
  lemma {:induction false} ValueThree(s: seq<Byte>)
    requires Digits(s) && |s| >= 3
    ensures Value(s[..3]) == 64 * (s[0] - '0' as int) + 8 * (s[1] - '0' as int) + (s[2] - '0' as int)
  {
    assert s[..0] == [];
    ValueNext(s, 0, 1);
    ValueNext(s, 1, 2);
    ValueNext(s, 2, 3);
  }

  lemma {:induction false} ValueFour(s: seq<Byte>, i: nat, next: nat)
    requires Digits(s) && next == i + 4 <= |s|
    ensures Value(s[..next])
            == 4096 * Value(s[..i]) + 512 * (s[i] - '0' as int) + 64 * (s[i + 1] - '0' as int)
               + 8 * (s[i + 2] - '0' as int) + (s[i + 3] - '0' as int)
  {
    ValueNext(s, i, i + 1);
    ValueNext(s, i + 1, i + 2);
    ValueNext(s, i + 2, i + 3);
    ValueNext(s, i + 3, next);
  }

  /** Of a given length only one digit string denotes a number. */
  lemma {:induction false} DigitsUnique(a: seq<Byte>, b: seq<Byte>)
    requires Digits(a) && Digits(b) && |a| == |b| && Value(a) == Value(b)
    ensures a == b
  {
    if a != [] {
      var n := |a| - 1;
      DigitsUnique(a[..n], b[..n]);
      assert a == a[..n] + [a[n]] && b == b[..n] + [b[n]];
    }
  }

  lemma {:induction false} Pow8Mono(m: nat, n: nat)
    requires m <= n
    ensures Pow8(m) <= Pow8(n)
  {
    if m < n {
      Pow8Mono(m, n - 1);
    }
  }

  /** A prefix never denotes more than the whole. */
  lemma {:induction false} ValuePrefix(s: seq<Byte>, n: nat)
    requires Digits(s) && n <= |s|
    ensures Value(s[..n]) <= Value(s)
  {
    if n == |s| {
      assert s[..n] == s;
    } else {
      var t := s[..|s| - 1];
      assert t[..n] == s[..n];
      ValuePrefix(t, n);
    }
  }

  /** Moving the lowest octal digit of the remaining value into the buffer. */
  lemma {:induction false} SplitDigit(v: nat, p: nat)
    ensures v * p == (v / 8) * (8 * p) + (v % 8) * p
  {
    assert v == 8 * (v / 8) + v % 8;
    assert (8 * (v / 8) + v % 8) * p == 8 * (v / 8) * p + (v % 8) * p;
  }

  /** The buffer holds the low digits of the value and `v` what is left of it. */
  ghost predicate Partly(value: nat, buf: seq<Byte>, v: nat) {
    && Digits(buf) && Reversed(buf) + v * Pow8(|buf|) == value
    && (|buf| == 0 || Pow8(|buf| - 1) <= value)
  }

  lemma {:induction false} PartlyStep(value: nat, buf: seq<Byte>, v: nat)
    requires v > 0 && Partly(value, buf, v)
    ensures Partly(value, buf + ['0' as int + v % 8], v / 8)
  {
    SplitDigit(v, Pow8(|buf|));
    Leading(v, Pow8(|buf|));
    ReversedPush(buf, '0' as int + v % 8);
  }

  lemma {:induction false} Finished(value: nat, buf: seq<Byte>)
    requires Partly(value, buf, 0)
    ensures Reversed(buf) == value
    ensures |buf| == 0 ==> Digits(['0' as int]) && Reversed(['0' as int]) == value
  {
    ReversedPush([], '0' as int);
    assert [] + ['0' as int] == ['0' as int];
  }

  /** The digit loop of `format_integer` and its precision of one. */
  method Accumulate(value: nat) returns (buf: seq<Byte>)
    ensures Digits(buf) && Reversed(buf) == value
    ensures |buf| >= 1 && (|buf| == 1 || Pow8(|buf| - 1) <= value)
  {
    buf := [];
    var v: nat := value;
    while v > 0
      invariant Partly(value, buf, v)
    {
      PartlyStep(value, buf, v);
      buf := buf + ['0' as int + v % 8];
      v := v / 8;
    }
    Finished(value, buf);
    if |buf| < 1 {
      buf := ['0' as int];
    }
  }

  lemma {:induction false} Leading(v: nat, p: nat)
    requires v > 0
    ensures p <= v * p
  {
    assert v * p == p + (v - 1) * p;
  }

  /** `format_integer` for an unsigned octal conversion with the zero flag: at least `width` digits
      denoting the value, exactly `width` when the value fits. */
  method FormatOctal(value: nat, width: nat) returns (out: seq<Byte>)
    ensures Digits(out) && Value(out) == value
    ensures |out| >= width
    ensures width >= 1 && value < Pow8(width) ==> |out| == width
  {
    var buf := Accumulate(value);
    if width >= 1 && value < Pow8(width) && |buf| > width {
      Pow8Mono(width, |buf| - 1);
    }
    out := ZeroPad(width - |buf|);
    var cp := |buf|;
    assert buf[..cp] == buf;
    while cp > 0
      invariant 0 <= cp <= |buf| && Digits(out) && |out| + cp == if |buf| >= width then |buf| else width
      invariant Value(out) * Pow8(cp) + Reversed(buf[..cp]) == value
    {
      cp := cp - 1;
      DigitMoved(out, buf, cp, cp + 1);
      out := out + [buf[cp]];
    }
  }

  /** Moving the last remaining digit to the output does not change the value. */
  lemma DigitMoved(out: seq<Byte>, buf: seq<Byte>, cp: nat, more: nat)
    requires Digits(out) && Digits(buf) && more == cp + 1 <= |buf|
    ensures Digits(out + [buf[cp]])
    ensures Value(out + [buf[cp]]) * Pow8(cp) + Reversed(buf[..cp]) == Value(out) * Pow8(more) + Reversed(buf[..more])
  {
    var front := buf[..more];
    assert front[..cp] == buf[..cp];
    ValuePush(out, buf[cp]);
    EmitDigit(Value(out), buf[cp] - '0' as int, Pow8(cp));
  }

  lemma {:induction false} EmitDigit(a: nat, d: nat, p: nat)
    ensures a * (8 * p) + d * p == (8 * a + d) * p
  {
  }

  /** `output_dup` of the pad character. */
  method ZeroPad(count: int) returns (out: seq<Byte>)
    ensures Digits(out) && Value(out) == 0 && |out| == if count > 0 then count else 0
  {
    out := [];
    while |out| < count
      invariant Digits(out) && Value(out) == 0 && |out| <= if count > 0 then count else 0
    {
      ValuePush(out, '0' as int);
      out := out + ['0' as int];
    }
  }

  // ----- parsing -----

  predicate Terminator(c: Byte) {
    c == ' ' as int || c == 0
  }

  /** The first `n` bytes of `s` are digits. */
  ghost predicate DigitsTo(s: seq<Byte>, n: int) {
    0 <= n <= |s| && forall i :: 0 <= i < n ==> Digit(s[i])
  }

  /** The first `n` bytes of `s` are a terminated octal number that fits an unsigned long. */
  ghost predicate IsField(s: seq<Byte>, n: int) {
    0 < n < |s| && DigitsTo(s, n) && Terminator(s[n]) && Value(s[..n]) <= ULONG_MAX
  }

  /** What an octal field denotes, if it is well formed. */
  ghost function FieldValue(s: seq<Byte>): (r: Option<nat>)
  {
    if exists n :: IsField(s, n) then
      var n :| IsField(s, n);
      Some(Value(s[..n]))
    else None
  }

  /** A field ends at its first byte that is not a digit. */
  lemma {:induction false} FieldEnd(s: seq<Byte>, k: int, n: int)
    requires DigitsTo(s, k) && k < |s| && !Digit(s[k]) && IsField(s, n)
    ensures n == k
  {
  }

  lemma {:induction false} FieldIs(s: seq<Byte>, n: int)
    requires IsField(s, n)
    ensures FieldValue(s) == Some(Value(s[..n]))
  {
    var m :| IsField(s, m) && FieldValue(s) == Some(Value(s[..m]));
    FieldEnd(s, n, m);
  }

  /** A first non-digit that is no terminator, or comes first, rules a field out. */
  lemma {:induction false} NoField(s: seq<Byte>, k: int)
    requires DigitsTo(s, k) && k < |s| && !Digit(s[k]) && (!Terminator(s[k]) || k == 0)
    ensures FieldValue(s) == None
  {
    if exists n :: IsField(s, n) {
      var n :| IsField(s, n);
      FieldEnd(s, k, n);
    }
  }

  /** Digits that already denote too much rule a field out. */
  lemma {:induction false} TooBig(s: seq<Byte>, k: nat)
    requires DigitsTo(s, k) && Value(s[..k]) > ULONG_MAX
    ensures FieldValue(s) == None
  {
    if exists n :: IsField(s, n) {
      var n :| IsField(s, n);
      FieldReaches(s, k, n);
      ValuePrefix(s[..n], k);
    }
  }

  lemma {:induction false} FieldReaches(s: seq<Byte>, k: int, n: int)
    requires DigitsTo(s, k) && IsField(s, n)
    ensures k <= n && s[..n][..k] == s[..k]
  {
  }

  lemma {:induction false} Unterminated(s: seq<Byte>)
    requires DigitsTo(s, |s|)
    ensures FieldValue(s) == None
  {
    if exists n :: IsField(s, n) {
      var n :| IsField(s, n);
      FieldReaches(s, |s|, n);
    }
  }

  /** The first `ofs` bytes are digits denoting `value`. */
  ghost predicate Scanned(s: seq<Byte>, ofs: int, value: nat) {
    DigitsTo(s, ofs) && value == Value(s[..ofs])
  }

  lemma {:induction false} ScannedNext(s: seq<Byte>, ofs: int, value: nat)
    requires Scanned(s, ofs, value) && ofs < |s| && Digit(s[ofs])
    ensures Scanned(s, ofs + 1, s[ofs] - '0' as int + value * 8)
  {
    assert s[..ofs + 1] == s[..ofs] + [s[ofs]];
    ValuePush(s[..ofs], s[ofs]);
  }

  /** `parse_octal_field`: accepts exactly the well-formed fields; the overflow test is exact. */
  method ParseOctal(s: seq<Byte>) returns (ok: bool, value: nat)
    ensures FieldValue(s) == if ok then Some(value) else None
  {
    value := 0;
    var ofs := 0;
    while ofs < |s|
      invariant 0 <= ofs <= |s| && Scanned(s, ofs, value) && value <= ULONG_MAX
    {
      var c := s[ofs];
      if '0' as int <= c <= '7' as int {
        ScannedNext(s, ofs, value);
        if value > ULONG_MAX / 8 {
          TooBig(s, ofs + 1);
          return false, value;
        }
        value := c - '0' as int + value * 8;
      } else if c == ' ' as int || c == 0 {
        if ofs > 0 {
          FieldIs(s, ofs);
        } else {
          NoField(s, ofs);
        }
        return ofs > 0, value;
      } else {
        NoField(s, ofs);
        return false, value;
      }
      ofs := ofs + 1;
    }
    Unterminated(s);
    ok := false;
  }

  /** Parsing a printed field gives the value back. */
  lemma {:induction false} PrintedFieldParses(digits: seq<Byte>, rest: seq<Byte>)
    requires Digits(digits) && digits != [] && Value(digits) <= ULONG_MAX
    requires rest != [] && Terminator(rest[0])
    ensures FieldValue(digits + rest) == Some(Value(digits))
  {
    var s := digits + rest;
    assert s[..|digits|] == digits && s[|digits|] == rest[0];
    FieldIs(s, |digits|);
  }
}
