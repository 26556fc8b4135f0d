/** The ustar header writer and parser of pintos_pro3/src/lib/ustar.c. What is made parses back to
    the stripped name, the type and the size; a damaged byte never goes unnoticed. */
module Ustar {

  import opened Machine
  import opened Octal

  const SLASH: Byte := '/' as int
  const DOT: Byte := '.' as int
  const REGULAR: Byte := '0' as int
  const DIRECTORY: Byte := '5' as int
  const INT_MAX: int := 0x7FFF_FFFF

  // ----- names -----

  /** A C string's bytes: none is the terminator. */
  ghost predicate Name(s: seq<Byte>) {
    forall i :: 0 <= i < |s| ==> s[i] != 0
  }

  /** Length of a leading "/", "./" or "../"; zero when the name starts with none of them. */
  function Antisocial(s: seq<Byte>): (n: nat)
    ensures n <= |s| && (n > 0 ==> s[n - 1] == SLASH && forall i :: 0 <= i < n - 1 ==> s[i] == DOT)
  {
    if |s| >= 1 && s[0] == SLASH then 1
    else if |s| >= 2 && s[0] == DOT && s[1] == SLASH then 2
    else if |s| >= 3 && s[0] == DOT && s[1] == DOT && s[2] == SLASH then 3
    else 0
  }

  /** A name an extractor may use as it is: not empty, not "..", no dangerous prefix. */
  predicate Sociable(s: seq<Byte>) {
    s != [] && s != [DOT, DOT] && Antisocial(s) == 0
  }

  /** "." stands in for nothing and for "..". */
  function Plain(s: seq<Byte>): seq<Byte> {
    if s == [] || s == [DOT, DOT] then [DOT] else s
  }

  /** The name after its dangerous prefixes. */
  function Stripped(s: seq<Byte>): (r: seq<Byte>)
    ensures Sociable(r)
    ensures Sociable(s) ==> r == s
    ensures |r| <= |s| || r == [DOT]
    ensures Name(s) ==> Name(r)
    decreases |s|
  {
    var n := Antisocial(s);
    if n > 0 then Stripped(s[n..])
    else Plain(s)
  }

  ghost predicate ThreeDots(s: seq<Byte>, i: int)
    requires 0 <= i < |s| - 2
  {
    s[i] == DOT && s[i + 1] == DOT && s[i + 2] == DOT
  }

  /** The first `n` bytes are whole components of at most two dots each. */
  ghost predicate Droppable(s: seq<Byte>, n: nat) {
    && n <= |s| && (n > 0 ==> s[n - 1] == SLASH)
    && (forall i :: 0 <= i < n ==> s[i] == DOT || s[i] == SLASH)
    && forall i :: 0 <= i < n - 2 ==> !ThreeDots(s, i)
  }

  /** Droppable fronts add up. */
  lemma {:induction false} DroppableMore(s: seq<Byte>, n: nat, m: nat)
    requires Droppable(s, n) && Droppable(s[n..], m)
    ensures Droppable(s, n + m) && s[n..][m..] == s[n + m..]
  {
    var t := s[n..];
    forall i | 0 <= i < n + m ensures s[i] == DOT || s[i] == SLASH {
      assert i >= n ==> s[i] == t[i - n];
    }
    assert m > 0 ==> s[n + m - 1] == t[m - 1];
    forall i | 0 <= i < n + m - 2 ensures !ThreeDots(s, i) {
      if i >= n {
        assert ThreeDots(s, i) == ThreeDots(t, i - n);
      }
    }
  }

  /** What is left of a droppable front is droppable from the rest. */
  lemma {:induction false} DroppableRest(s: seq<Byte>, n: nat, m: nat)
    requires n < m && Droppable(s, m)
    ensures Droppable(s[n..], m - n)
  {
    var t := s[n..];
    assert forall i :: 0 <= i < m - n ==> t[i] == s[n + i];
    forall i | 0 <= i < m - n - 2 ensures !ThreeDots(t, i) {
      assert ThreeDots(t, i) == ThreeDots(s, n + i);
    }
  }

  lemma {:induction false} AntisocialDroppable(s: seq<Byte>)
    ensures Droppable(s, Antisocial(s))
  {
  }

  /** A name without a dangerous prefix has no component to drop. */
  lemma {:induction false} NothingDroppable(s: seq<Byte>, m: nat)
    requires Antisocial(s) == 0 && m > 0
    ensures !Droppable(s, m)
  {
    if m > 2 && m <= |s| {
      assert ThreeDots(s, 0) <==> s[0] == DOT && s[1] == DOT && s[2] == DOT;
    }
  }

  /** Exactly the longest front of whole components of at most two dots is dropped; "." stands in
      for nothing and for "..". */
  lemma {:induction false} StrippedSuffix(s: seq<Byte>) returns (n: nat)
    ensures Droppable(s, n) && forall m: nat :: Droppable(s, m) ==> m <= n
    ensures Stripped(s) == if n == |s| || s[n..] == [DOT, DOT] then [DOT] else s[n..]
    decreases |s|
  {
    var a := Antisocial(s);
    AntisocialDroppable(s);
    StripOnce(s, a);
    if a == 0 {
      n := 0;
      forall m: nat | Droppable(s, m) ensures m <= n {
        if m > 0 {
          NothingDroppable(s, m);
        }
      }
    } else {
      var k := StrippedSuffix(s[a..]);
      DroppableMore(s, a, k);
      n := a + k;
      forall m: nat | Droppable(s, m) ensures m <= n {
        if m > n {
          DroppableRest(s, a, m);
        }
      }
    }
  }

  lemma {:induction false} StripOnce(s: seq<Byte>, n: nat)
    requires n == Antisocial(s) <= |s|
    ensures Stripped(s) == if n > 0 then Stripped(s[n..]) else Plain(s[n..])
  {
    assert s[0..] == s;
  }

  /** `strip_antisocial_prefixes`: each turn skips past the first slash. */
  method Strip(name: seq<Byte>) returns (r: seq<Byte>)
    requires Name(name)
    ensures r == Stripped(name)
  {
    var s := name;
    while Antisocial(s) > 0
      invariant Stripped(s) == Stripped(name)
      decreases |s|
    {
      var at := FindSlash(s);
      s := s[at + 1..];
    }
    r := Plain(s);
  }

  /** `strchr (file_name, '/')` where a slash is known to come. */
  method FindSlash(s: seq<Byte>) returns (at: nat)
    requires Antisocial(s) > 0
    ensures at + 1 == Antisocial(s)
  {
    at := 0;
    while s[at] != SLASH
      invariant at < Antisocial(s) <= |s|
      decreases |s| - at
    {
      at := at + 1;
    }
  }

  /** The bytes before the first terminator. */
  function CString(s: seq<Byte>): (r: seq<Byte>)
    ensures Name(r) && |r| <= |s| && r == s[..|r|]
    ensures |r| < |s| ==> s[|r|] == 0
  {
    if s == [] || s[0] == 0 then [] else [s[0]] + CString(s[1..])
  }

  lemma {:induction false} CStringIs(name: seq<Byte>, s: seq<Byte>)
    requires Name(name) && |name| < |s| && s[..|name|] == name && s[|name|] == 0
    ensures CString(s) == name
  {
    if name != [] {
      assert s[0] == name[0];
      assert s[1..][..|name| - 1] == name[1..];
      CStringIs(name[1..], s[1..]);
    }
  }

  lemma {:induction false} CStringStops(s: seq<Byte>, k: nat)
    requires k < |s| && s[k] == 0
    ensures |CString(s)| <= k
  {
    if k > 0 {
      CStringStops(s[1..], k - 1);
    }
  }

  // ----- checksum -----

  const CHKSUM := 148

  /** The sum of the first `n` bytes, the checksum field read as spaces. */
  function SumTo(h: seq<Byte>, n: nat): (r: nat)
    requires n <= |h|
    ensures r <= 255 * n
  {
    if n == 0 then 0 else SumTo(h, n - 1) + if CHKSUM <= n - 1 < CHKSUM + 8 then ' ' as int else h[n - 1]
  }

  /** The plain sum of some bytes. */
  function Total(s: seq<Byte>): nat {
    if s == [] then 0 else Total(s[..|s| - 1]) + s[|s| - 1]
  }

  lemma {:induction false} SumBefore(h: seq<Byte>, n: nat)
    requires n <= CHKSUM && n <= |h|
    ensures SumTo(h, n) == Total(h[..n])
  {
    if n > 0 {
      SumBefore(h, n - 1);
      assert h[..n][..n - 1] == h[..n - 1];
    }
  }

  lemma {:induction false} SumInside(h: seq<Byte>, i: nat)
    requires i <= 8 && CHKSUM + i <= |h|
    ensures SumTo(h, CHKSUM + i) == SumTo(h, CHKSUM) + 32 * i
  {
    if i > 0 {
      SumInside(h, i - 1);
    }
  }

  lemma {:induction false} SumAfter(h: seq<Byte>, n: nat)
    requires CHKSUM + 8 <= n <= |h|
    ensures SumTo(h, n) == SumTo(h, CHKSUM + 8) + Total(h[CHKSUM + 8..n])
  {
    if n > CHKSUM + 8 {
      SumAfter(h, n - 1);
      assert h[CHKSUM + 8..n][..n - 1 - (CHKSUM + 8)] == h[CHKSUM + 8..n - 1];
    }
  }

  /** The checksum is the sum of the bytes around its field and of eight spaces. */
  lemma {:induction false} ChecksumIs(h: seq<Byte>)
    requires |h| == 512
    ensures SumTo(h, 512) == Total(h[..148]) + 8 * 32 + Total(h[156..])
  {
    SumBefore(h, 148);
    SumInside(h, 8);
    SumAfter(h, 512);
    assert h[156..512] == h[156..];
  }

  /** `calculate_chksum`. */
  method CalculateChksum(h: seq<Byte>) returns (sum: nat)
    requires |h| == 512
    ensures sum == SumTo(h, 512) < Pow8(7)
    ensures sum == Total(h[..148]) + 8 * 32 + Total(h[156..])
  {
    sum := 0;
    for i := 0 to 512
      invariant sum == SumTo(h, i)
    {
      sum := sum + if CHKSUM <= i < CHKSUM + 8 then ' ' as int else h[i];
    }
    SevenDigits();
    ChecksumIs(h);
  }

  lemma SevenDigits()
    ensures Pow8(7) == 2097152 && Pow8(11) == 8589934592
  {
    assert Pow8(3) == 512;
    assert Pow8(7) == 4096 * Pow8(3);
    assert Pow8(11) == 4096 * Pow8(7);
  }

  /** The checksum does not depend on its own field. */
  lemma {:induction false} SumIgnoresField(g: seq<Byte>, h: seq<Byte>, n: nat)
    requires n <= |g| && n <= |h|
    requires forall i :: 0 <= i < n && !(CHKSUM <= i < CHKSUM + 8) ==> g[i] == h[i]
    ensures SumTo(g, n) == SumTo(h, n)
  {
    if n > 0 {
      SumIgnoresField(g, h, n - 1);
    }
  }

  /** One changed byte outside the field moves the sum by exactly the change. */
  lemma {:induction false} SumShifts(g: seq<Byte>, h: seq<Byte>, k: nat, n: nat)
    requires k < n <= |g| && |g| == |h| && !(CHKSUM <= k < CHKSUM + 8)
    requires forall i :: 0 <= i < |g| && i != k ==> g[i] == h[i]
    ensures SumTo(h, n) == SumTo(g, n) + h[k] - g[k]
  {
    if n == k + 1 {
      SumIgnoresField(g, h, k);
    } else {
      SumShifts(g, h, k, n - 1);
    }
  }

  // ----- parsing -----

  datatype Error =
    | NotUstar | BadVersion | BadChecksumField | ChecksumMismatch
    | NameTooLong | BadType | BadSizeField | TooLarge

  datatype Parsed =
    | EndOfArchive
    | Entry(name: seq<Byte>, kind: Byte, size: nat)
    | Bad(error: Error)

  ghost predicate AllZeros(h: seq<Byte>) {
    forall i :: 0 <= i < |h| ==> h[i] == 0
  }

  const MAGIC: seq<Byte> := ['u' as int, 's' as int, 't' as int, 'a' as int, 'r' as int, 0]

  /** The meaning of a header. */
  ghost function Parse(h: seq<Byte>): (r: Parsed)
    requires |h| == 512
  {
    if AllZeros(h) then EndOfArchive
    else if h[257..263] != MAGIC then Bad(NotUstar)
    else if h[263] != '0' as int || h[264] != '0' as int then Bad(BadVersion)
    else if FieldValue(h[148..156]).None? then Bad(BadChecksumField)
    else if FieldValue(h[148..156]).value != SumTo(h, 512) then Bad(ChecksumMismatch)
    else if h[99] != 0 || h[345] != 0 then Bad(NameTooLong)
    else ParsedBody(h)
  }

  /** The meaning of a header whose checksum is right and whose name fits. */
  ghost function ParsedBody(h: seq<Byte>): (r: Parsed)
    requires |h| == 512
  {
    if h[156] == DIRECTORY then Entry(Stripped(CString(h[..100])), DIRECTORY, 0)
    else if h[156] != REGULAR then Bad(BadType)
    else if FieldValue(h[124..136]).None? then Bad(BadSizeField)
    else if FieldValue(h[124..136]).value > INT_MAX then Bad(TooLarge)
    else Entry(Stripped(CString(h[..100])), REGULAR, FieldValue(h[124..136]).value)
  }

  // ----- what is accepted -----

  /** The check whose failure is reported as `e`. */
  ghost predicate Passes(h: seq<Byte>, e: Error)
    requires |h| == 512
  {
    match e
    case NotUstar => h[257..263] == MAGIC
    case BadVersion => h[263] == h[264] == '0' as int
    case BadChecksumField => exists n :: IsField(h[148..156], n)
    case ChecksumMismatch => Denotes(h[148..156], SumTo(h, 512))
    case NameTooLong => h[99] == h[345] == 0
    case BadType => h[156] == REGULAR || h[156] == DIRECTORY
    case BadSizeField => h[156] == REGULAR ==> exists n :: IsField(h[124..136], n)
    case TooLarge => h[156] == REGULAR ==> exists v: nat :: v <= INT_MAX && Denotes(h[124..136], v)
  }

  /** The place of a check in the order they are made. */
  function Rank(e: Error): nat {
    match e
    case NotUstar => 0
    case BadVersion => 1
    case BadChecksumField => 2
    case ChecksumMismatch => 3
    case NameTooLong => 4
    case BadType => 5
    case BadSizeField => 6
    case TooLarge => 7
  }

  ghost predicate Denotes(s: seq<Byte>, v: nat) {
    exists n :: IsField(s, n) && Value(s[..n]) == v
  }

  lemma DenotesIs(s: seq<Byte>, v: nat)
    ensures Denotes(s, v) <==> FieldValue(s) == Some(v)
    ensures (exists n :: IsField(s, n)) <==> FieldValue(s).Some?
  {
    if n :| IsField(s, n) && Value(s[..n]) == v {
      FieldIs(s, n);
    }
  }

  /** Every check before that of `e` passes. */
  ghost predicate PassesTo(h: seq<Byte>, e: Error)
    requires |h| == 512
  {
    forall d :: Rank(d) < Rank(e) ==> Passes(h, d)
  }

  lemma {:induction false} PassesToIs(h: seq<Byte>, e: Error)
    requires |h| == 512
    ensures PassesTo(h, e) <==>
      && (Rank(e) > 0 ==> Passes(h, NotUstar)) && (Rank(e) > 1 ==> Passes(h, BadVersion))
      && (Rank(e) > 2 ==> Passes(h, BadChecksumField)) && (Rank(e) > 3 ==> Passes(h, ChecksumMismatch))
      && (Rank(e) > 4 ==> Passes(h, NameTooLong)) && (Rank(e) > 5 ==> Passes(h, BadType))
      && (Rank(e) > 6 ==> Passes(h, BadSizeField))
  {
  }

  lemma {:induction false} FailsAt(h: seq<Byte>, e: Error)
    requires |h| == 512 && !AllZeros(h)
    ensures Parse(h) == Bad(e) <==> !Passes(h, e) && PassesTo(h, e)
  {
    DenotesIs(h[148..156], SumTo(h, 512));
    SizeDenotes(h[124..136]);
    PassesToIs(h, e);
  }

  /** The error reported is the first check that fails, and a header is accepted when none does. */
  lemma {:induction false} FirstFailure(h: seq<Byte>)
    requires |h| == 512 && !AllZeros(h)
    ensures forall e :: Parse(h) == Bad(e) <==> !Passes(h, e) && PassesTo(h, e)
    ensures Parse(h).Entry? <==> forall e :: Passes(h, e)
  {
    DenotesIs(h[148..156], SumTo(h, 512));
    SizeDenotes(h[124..136]);
    PassesToIs(h, TooLarge);
    forall e ensures Parse(h) == Bad(e) <==> !Passes(h, e) && PassesTo(h, e) {
      FailsAt(h, e);
    }
  }

  lemma SizeDenotes(s: seq<Byte>)
    ensures (exists n :: IsField(s, n)) <==> FieldValue(s).Some?
    ensures (exists v: nat :: v <= INT_MAX && Denotes(s, v)) <==> FieldValue(s).Some? && FieldValue(s).value <= INT_MAX
  {
    DenotesIs(s, 0);
    if FieldValue(s).Some? {
      DenotesIs(s, FieldValue(s).value);
    }
    forall v: nat | Denotes(s, v) ensures FieldValue(s) == Some(v) {
      DenotesIs(s, v);
    }
  }

  /** What an accepted header says. */
  lemma {:induction false} AcceptedFields(h: seq<Byte>)
    requires |h| == 512 && Parse(h).Entry?
    ensures var e := Parse(h);
      && e.kind == h[156] && e.name == Stripped(CString(h[..100]))
      && if e.kind == DIRECTORY then e.size == 0 else Denotes(h[124..136], e.size)
  {
    DenotesIs(h[124..136], Parse(h).size);
  }

  /** `is_all_zeros`. */
  method IsAllZeros(h: seq<Byte>) returns (r: bool)
    ensures r <==> AllZeros(h)
  {
    for i := 0 to |h|
      invariant forall j :: 0 <= j < i ==> h[j] == 0
    {
      if h[i] != 0 {
        return false;
      }
    }
    r := true;
  }

  /** `ustar_parse_header`. */
  method ParseHeader(header: array<Byte>) returns (r: Parsed)
    requires header.Length == 512
    ensures r == Parse(header[..])
  {
    var h := header[..];
    var zeros := IsAllZeros(h);
    if zeros {
      return EndOfArchive;
    }
    if h[257..263] != MAGIC {
      return Bad(NotUstar);
    } else if h[263] != '0' as int || h[264] != '0' as int {
      return Bad(BadVersion);
    }
    var ok, stored := ParseOctal(h[148..156]);
    if !ok {
      return Bad(BadChecksumField);
    }
    var sum := CalculateChksum(h);
    if stored != sum {
      return Bad(ChecksumMismatch);
    } else if h[99] != 0 || h[345] != 0 {
      return Bad(NameTooLong);
    }
    r := ParseBody(h);
  }

  /** The rest of `ustar_parse_header`, for a header whose checksum is right. */
  method ParseBody(h: seq<Byte>) returns (r: Parsed)
    requires |h| == 512
    ensures r == ParsedBody(h)
  {
    var size: nat := 0;
    if h[156] != REGULAR && h[156] != DIRECTORY {
      return Bad(BadType);
    }
    if h[156] == REGULAR {
      var ok;
      ok, size := ParseOctal(h[124..136]);
      if !ok {
        return Bad(BadSizeField);
      } else if size > INT_MAX {
        return Bad(TooLarge);
      }
    }
    var name := Strip(CString(h[..100]));
    r := Entry(name, h[156], size);
  }

  // ----- making -----

  /** `b` written over `h` from offset `at`. */
  function Stamp(h: seq<Byte>, at: nat, b: seq<Byte>): (r: seq<Byte>)
    requires at + |b| <= |h|
    ensures |r| == |h|
    ensures forall i :: 0 <= i < |h| ==> r[i] == if at <= i < at + |b| then b[i - at] else h[i]
  {
    h[..at] + b + h[at + |b|..]
  }

  function Blank(n: nat): (r: seq<Byte>)
    ensures |r| == n && forall i :: 0 <= i < n ==> r[i] == 0
  {
    seq(n, _ => 0)
  }

  const ROOT: seq<Byte> := ['r' as int, 'o' as int, 'o' as int, 't' as int]
  const USTAR: seq<Byte> := ['u' as int, 's' as int, 't' as int, 'a' as int, 'r' as int]
  const VERSION: seq<Byte> := ['0' as int, '0' as int]
  const NOBODY: seq<Byte> := [48, 48, 48, 48, 48, 48, 48]
  const EPOCH := 1136102400

  ghost predicate At(h: seq<Byte>, at: nat, b: seq<Byte>) {
    at + |b| <= |h| && forall i :: 0 <= i < |b| ==> h[at + i] == b[i]
  }

  ghost predicate Zero(h: seq<Byte>, lo: nat, hi: nat) {
    hi <= |h| && forall i :: lo <= i < hi ==> h[i] == 0
  }

  /** Offset `at` holds `width` octal digits denoting `v`, and a terminator. */
  ghost predicate Printed(h: seq<Byte>, at: nat, width: nat, v: nat) {
    && at + width < |h| && h[at + width] == 0
    && Digits(h[at..at + width]) && Value(h[at..at + width]) == v
  }

  /** Octal 0000644 and 0000755, and the modification time 10355706000. */
  const FILE_MODE: seq<Byte> := [48, 48, 48, 48, 54, 52, 52]
  const DIR_MODE: seq<Byte> := [48, 48, 48, 48, 55, 53, 53]
  const TIME: seq<Byte> := [49, 48, 51, 53, 53, 55, 48, 54, 48, 48, 48]

  function Mode(kind: Byte): nat {
    if kind == REGULAR then 420 else 493
  }

  /** The size as the unsigned conversion sees it. */
  function Unsigned(size: int): int {
    if size >= 0 then size else size + 0x1_0000_0000
  }

  /** Every byte of the header for a file. */
  ghost predicate Composed(h: seq<Byte>, name: seq<Byte>, kind: Byte, size: int)
    requires -INT_MAX - 1 <= size <= INT_MAX
  {
    && |h| == 512 && |name| <= 99
    && At(h, 0, name) && Zero(h, |name|, 100)
    && Printed(h, 100, 7, Mode(kind))
    && At(h, 108, NOBODY + [0]) && At(h, 116, NOBODY + [0])
    && Printed(h, 124, 11, Unsigned(size)) && Printed(h, 136, 11, EPOCH)
    && Printed(h, 148, 7, SumTo(h, 512))
    && h[156] == kind && Zero(h, 157, 257)
    && At(h, 257, MAGIC) && h[263] == h[264] == '0' as int
    && At(h, 265, ROOT) && Zero(h, 269, 297) && At(h, 297, ROOT) && Zero(h, 301, 512)
  }

  /** The header before its checksum is filled in. */
  function Draft(name: seq<Byte>, kind: Byte, mode: seq<Byte>, size: seq<Byte>, time: seq<Byte>): (h: seq<Byte>)
    requires |name| <= 99 && |mode| == 7 && |size| == |time| == 11
    ensures |h| == 512
  {
    Tail(Stamp(Stamp(Front(name, mode), 124, size + [0]), 136, time + [0]), kind)
  }

  function Front(name: seq<Byte>, mode: seq<Byte>): (h: seq<Byte>)
    requires |name| <= 99 && |mode| == 7
    ensures |h| == 512
  {
    Stamp(Stamp(Stamp(Stamp(Blank(512), 0, name + [0]), 100, mode + [0]), 108, NOBODY + [0]), 116, NOBODY + [0])
  }

  function Tail(h: seq<Byte>, kind: Byte): (r: seq<Byte>)
    requires |h| == 512
    ensures |r| == 512
  {
    Stamp(Stamp(Stamp(Stamp(Stamp(h, 156, [kind]), 257, USTAR + [0]), 263, VERSION), 297, ROOT + [0]), 265, ROOT + [0])
  }

  ghost predicate Same(g: seq<Byte>, h: seq<Byte>, lo: nat, hi: nat) {
    hi <= |g| && hi <= |h| && forall i :: lo <= i < hi ==> g[i] == h[i]
  }

  lemma {:induction false} FrontFields(name: seq<Byte>, mode: seq<Byte>)
    requires |name| <= 99 && |mode| == 7
    ensures var h := Front(name, mode);
      && At(h, 0, name) && Zero(h, |name|, 100) && At(h, 100, mode + [0])
      && At(h, 108, NOBODY + [0]) && At(h, 116, NOBODY + [0]) && Zero(h, 124, 512)
  {
  }

  lemma {:induction false} MiddleFields(h: seq<Byte>, size: seq<Byte>, time: seq<Byte>)
    requires |h| == 512 && |size| == |time| == 11
    ensures var m := Stamp(Stamp(h, 124, size + [0]), 136, time + [0]);
      && Same(h, m, 0, 124) && At(m, 124, size + [0]) && At(m, 136, time + [0]) && Same(h, m, 148, 512)
  {
  }

  lemma {:induction false} TailFields(h: seq<Byte>, kind: Byte)
    requires |h| == 512 && Zero(h, 148, 512)
    ensures var r := Tail(h, kind);
      && Same(h, r, 0, 156) && r[156] == kind && Zero(r, 157, 257) && At(r, 257, MAGIC)
      && r[263] == r[264] == '0' as int
      && At(r, 265, ROOT) && Zero(r, 269, 297) && At(r, 297, ROOT) && Zero(r, 301, 512)
  {
  }

  /** Fields of the draft, the checksum stamped in, read back one by one. */
  lemma {:induction false} DraftFields(name: seq<Byte>, kind: Byte, mode: seq<Byte>, size: seq<Byte>, time: seq<Byte>,
                                       sum: seq<Byte>, h: seq<Byte>)
    requires |name| <= 99 && |mode| == 7 && |size| == |time| == 11 && |sum| == 7
    requires h == Stamp(Draft(name, kind, mode, size, time), 148, sum + [0])
    ensures At(h, 0, name) && Zero(h, |name|, 100) && At(h, 100, mode + [0])
    ensures At(h, 108, NOBODY + [0]) && At(h, 116, NOBODY + [0])
    ensures At(h, 124, size + [0]) && At(h, 136, time + [0]) && At(h, 148, sum + [0])
    ensures h[156] == kind && Zero(h, 157, 257) && At(h, 257, MAGIC) && h[263] == h[264] == '0' as int
    ensures At(h, 265, ROOT) && Zero(h, 269, 297) && At(h, 297, ROOT) && Zero(h, 301, 512)
  {
    var f := Front(name, mode);
    FrontFields(name, mode);
    var m := Stamp(Stamp(f, 124, size + [0]), 136, time + [0]);
    MiddleFields(f, size, time);
    TailFields(m, kind);
    var d := Tail(m, kind);
    assert Same(d, h, 0, 148) && Same(d, h, 156, 512) && At(h, 148, sum + [0]);
    assert Same(f, h, 0, 124);
    assert Same(m, h, 124, 148);
  }

  lemma {:induction false} PrintedAt(h: seq<Byte>, at: nat, digits: seq<Byte>)
    requires At(h, at, digits + [0]) && Digits(digits)
    ensures Printed(h, at, |digits|, Value(digits))
  {
    assert h[at + |digits|] == (digits + [0])[|digits|];
    forall i | 0 <= i < |digits| ensures h[at + i] == digits[i] {
      assert (digits + [0])[i] == digits[i];
    }
    assert h[at..at + |digits|] == digits;
  }

  /** `memset (h, 0, sizeof *h)`. */
  method Clear(header: array<Byte>)
    requires header.Length == 512
    modifies header
    ensures header[..] == Blank(512)
  {
    for i := 0 to 512
      invariant forall j :: 0 <= j < i ==> header[j] == 0
    {
      header[i] := 0;
    }
  }

  method Put(header: array<Byte>, at: nat, b: seq<Byte>)
    requires at + |b| <= header.Length
    modifies header
    ensures header[..] == Stamp(old(header[..]), at, b)
  {
    for i := 0 to |b|
      invariant forall j :: 0 <= j < header.Length ==>
                  header[j] == if at <= j < at + i then b[j - at] else old(header[j])
    {
      header[at + i] := b[i];
    }
  }

  /** `strlcpy` into a field of `room` bytes. */
  method CopyString(header: array<Byte>, at: nat, room: nat, s: seq<Byte>)
    requires at + room <= header.Length && |s| < room
    modifies header
    ensures header[..] == Stamp(old(header[..]), at, s + [0])
  {
    Put(header, at, s + [0]);
  }

  /** `snprintf` of a zero-padded octal number into a field one byte wider. */
  method PrintOctal(header: array<Byte>, at: nat, width: nat, value: nat) returns (ghost text: seq<Byte>)
    requires at + width < header.Length && width >= 1 && value < Pow8(width)
    modifies header
    ensures |text| == width && Digits(text) && Value(text) == value
    ensures header[..] == Stamp(old(header[..]), at, text + [0])
  {
    var out := FormatOctal(value, width);
    text := out;
    Put(header, at, out + [0]);
  }

  /** The fields before the checksum, in the order they are written. */
  method MakeDraft(name: seq<Byte>, kind: Byte, size: int, header: array<Byte>)
      returns (ghost mode: seq<Byte>, ghost length: seq<Byte>, ghost time: seq<Byte>)
    requires header.Length == 512 && |name| <= 99 && -INT_MAX - 1 <= size <= INT_MAX
    modifies header
    ensures |mode| == 7 && Digits(mode) && Value(mode) == Mode(kind)
    ensures |length| == 11 && Digits(length) && Value(length) == Unsigned(size)
    ensures |time| == 11 && Digits(time) && Value(time) == EPOCH
    ensures header[..] == Draft(name, kind, mode, length, time)
  {
    SevenDigits();
    Clear(header);
    CopyString(header, 0, 100, name);
    mode := PrintOctal(header, 100, 7, Mode(kind));
    CopyString(header, 108, 8, NOBODY);
    CopyString(header, 116, 8, NOBODY);
    length := PrintOctal(header, 124, 11, Unsigned(size));
    time := PrintOctal(header, 136, 11, EPOCH);
    Put(header, 156, [kind]);
    CopyString(header, 257, 6, USTAR);
    Put(header, 263, VERSION);
    CopyString(header, 297, 32, ROOT);
    CopyString(header, 265, 32, ROOT);
  }

  /** `ustar_make_header`. */
  method MakeHeader(name: seq<Byte>, kind: Byte, size: int, header: array<Byte>) returns (ok: bool)
    requires Name(name) && kind in {REGULAR, DIRECTORY} && -INT_MAX - 1 <= size <= INT_MAX
    requires header.Length == 512
    modifies header
    ensures ok <==> |Stripped(name)| <= 99
    ensures !ok ==> header[..] == old(header[..])
    ensures ok ==> Composed(header[..], Stripped(name), kind, size)
    ensures ok ==> At(header[..], 100, if kind == REGULAR then FILE_MODE else DIR_MODE) && At(header[..], 136, TIME)
  {
    var stripped := Strip(name);
    if |stripped| > 99 {
      return false;
    }
    ghost var mode, length, time := MakeDraft(stripped, kind, size, header);
    var sum := CalculateChksum(header[..]);
    ghost var draft := header[..];
    ghost var text := PrintOctal(header, 148, 7, sum);
    DraftComposed(stripped, kind, size, mode, length, time, text, header[..]);
    FixedFields(header[..], stripped, kind, size);
    ok := true;
  }

  lemma {:induction false} FixedValues()
    ensures Digits(FILE_MODE) && Value(FILE_MODE) == 420 && Digits(DIR_MODE) && Value(DIR_MODE) == 493
    ensures Digits(TIME) && Value(TIME) == EPOCH
  {
    SevenValue(FILE_MODE);
    SevenValue(DIR_MODE);
    SevenValue(TIME);
    ValueFour(TIME, 7, 11);
    assert TIME[..11] == TIME && FILE_MODE[..7] == FILE_MODE && DIR_MODE[..7] == DIR_MODE;
  }

  lemma {:induction false} SevenValue(s: seq<Byte>)
    requires Digits(s) && |s| >= 7
    ensures Value(s[..7])
            == 4096 * (64 * (s[0] - '0' as int) + 8 * (s[1] - '0' as int) + (s[2] - '0' as int))
               + 512 * (s[3] - '0' as int) + 64 * (s[4] - '0' as int) + 8 * (s[5] - '0' as int) + (s[6] - '0' as int)
  {
    ValueThree(s);
    ValueFour(s, 3, 7);
  }

  /** The mode and the time, digit by digit. */
  lemma {:induction false} FixedFields(h: seq<Byte>, name: seq<Byte>, kind: Byte, size: int)
    requires -INT_MAX - 1 <= size <= INT_MAX && kind in {REGULAR, DIRECTORY} && Composed(h, name, kind, size)
    ensures At(h, 100, if kind == REGULAR then FILE_MODE else DIR_MODE) && At(h, 136, TIME)
  {
    FixedValues();
    DigitsUnique(h[100..107], if kind == REGULAR then FILE_MODE else DIR_MODE);
    DigitsUnique(h[136..147], TIME);
  }

  lemma {:induction false} DraftComposed(name: seq<Byte>, kind: Byte, size: int, mode: seq<Byte>, length: seq<Byte>,
                                         time: seq<Byte>, sum: seq<Byte>, h: seq<Byte>)
    requires |name| <= 99 && -INT_MAX - 1 <= size <= INT_MAX
    requires |mode| == 7 && Digits(mode) && Value(mode) == Mode(kind)
    requires |length| == 11 && Digits(length) && Value(length) == Unsigned(size)
    requires |time| == 11 && Digits(time) && Value(time) == EPOCH
    requires |sum| == 7 && Digits(sum) && Value(sum) == SumTo(Draft(name, kind, mode, length, time), 512)
    requires h == Stamp(Draft(name, kind, mode, length, time), 148, sum + [0])
    ensures Composed(h, name, kind, size)
  {
    DraftFields(name, kind, mode, length, time, sum, h);
    PrintedAt(h, 100, mode);
    PrintedAt(h, 124, length);
    PrintedAt(h, 136, time);
    PrintedAt(h, 148, sum);
    SumIgnoresField(Draft(name, kind, mode, length, time), h, 512);
  }

  // ----- the round trip -----

  /** What parsing a made header must give: negative sizes of regular files are refused. */
  function Expected(name: seq<Byte>, kind: Byte, size: int): Parsed {
    if kind == DIRECTORY then Entry(Stripped(name), DIRECTORY, 0)
    else if size < 0 then Bad(TooLarge)
    else Entry(Stripped(name), REGULAR, size)
  }

  lemma {:induction false} PrintedParses(h: seq<Byte>, at: nat, width: nat, v: nat)
    requires Printed(h, at, width, v) && width > 0 && v <= ULONG_MAX
    ensures FieldValue(h[at..at + width + 1]) == Some(v)
  {
    var digits := h[at..at + width];
    assert h[at..at + width + 1] == digits + [0];
    PrintedFieldParses(digits, [0]);
  }

  /** A made header parses to the stripped name, the type and the size. */
  lemma {:induction false} MadeParses(h: seq<Byte>, name: seq<Byte>, kind: Byte, size: int)
    requires Name(name) && kind in {REGULAR, DIRECTORY} && -INT_MAX - 1 <= size <= INT_MAX
    requires Composed(h, Stripped(name), kind, size)
    ensures Parse(h) == Expected(name, kind, size)
  {
    var r := Stripped(name);
    PrintedParses(h, 148, 7, SumTo(h, 512));
    PrintedParses(h, 124, 11, Unsigned(size));
    assert h[257..263] == MAGIC;
    assert h[..100][..|r|] == r && h[..100][|r|] == 0;
    CStringIs(r, h[..100]);
    assert h[156] != 0;
  }

  /** Making and parsing, through one buffer. */
  method RoundTrip(name: seq<Byte>, kind: Byte, size: int, header: array<Byte>) returns (ok: bool, r: Parsed)
    requires Name(name) && kind in {REGULAR, DIRECTORY} && -INT_MAX - 1 <= size <= INT_MAX
    requires header.Length == 512
    modifies header
    ensures ok <==> |Stripped(name)| <= 99
    ensures ok ==> r == Expected(name, kind, size)
  {
    ok := MakeHeader(name, kind, size, header);
    if ok {
      MadeParses(header[..], name, kind, size);
    }
    r := ParseHeader(header);
  }

  /** Whatever parses can be archived again, and parses to the same entry. */
  lemma {:induction false} ParsedIsCanonical(h: seq<Byte>)
    requires |h| == 512 && Parse(h).Entry?
    ensures var e := Parse(h);
      && Name(e.name) && Sociable(e.name) && |e.name| <= 99 && e.kind in {REGULAR, DIRECTORY} && e.size <= INT_MAX
      && Expected(e.name, e.kind, e.size) == e
  {
    CStringStops(h[..100], 99);
  }

  /** Changing any one byte outside the checksum field of an accepted header is noticed. */
  lemma {:induction false} DamageIsNoticed(g: seq<Byte>, h: seq<Byte>, k: nat)
    requires |g| == |h| == 512 && Parse(g).Entry?
    requires k < 512 && !(CHKSUM <= k < CHKSUM + 8) && g[k] != h[k]
    requires forall i :: 0 <= i < 512 && i != k ==> g[i] == h[i]
    ensures Parse(h).Bad?
  {
    SumShifts(g, h, k, 512);
    assert g[148..156] == h[148..156];
    assert g[257..263][0] == g[257] && g[257..263][1] == g[258];
    assert h[257] != 0 || h[258] != 0;
  }
}
