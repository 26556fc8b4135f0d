/** Geometry of the kernel allocator's pages (pintos_pro3/src/threads/malloc.c): where the blocks of
    an arena lie, and counting the blocks of one page on a free list. */
module ArenaPages {

  import opened Lists
  import opened Sets
  import opened Arith

  const PGSIZE := 4096
  const HEADER := 12
  const DESCS: nat := 7

  predicate Desc(d: int) {
    0 <= d < DESCS
  }

  /** Block size of each descriptor: 16 doubled while below half a page. */
  function BlockSize(d: int): (r: int)
    requires Desc(d)
    ensures 16 <= r <= 1024
  {
    match d
    case 0 => 16
    case 1 => 32
    case 2 => 64
    case 3 => 128
    case 4 => 256
    case 5 => 512
    case _ => 1024
  }

  function BlocksPer(d: int): nat
    requires Desc(d)
  {
    (PGSIZE - HEADER) / BlockSize(d)
  }

  /** `pg_round_down` of a block's address, as a page number. */
  function PageOf(b: int): int {
    b / PGSIZE
  }

  /** `arena_to_block`. */
  function Slot(p: int, d: int, i: int): int
    requires Desc(d)
  {
    PGSIZE * p + HEADER + i * BlockSize(d)
  }

  /** The alignment demanded by `block_to_arena`, and an index within the arena. */
  predicate IsSlot(b: int, d: int)
    requires Desc(d)
  {
    && b % PGSIZE >= HEADER && (b % PGSIZE - HEADER) % BlockSize(d) == 0
    && (b % PGSIZE - HEADER) / BlockSize(d) < BlocksPer(d)
  }

  function SlotIndex(b: int, d: int): int
    requires Desc(d)
  {
    (b % PGSIZE - HEADER) / BlockSize(d)
  }

  /** Blocks lie inside their page, past the header. */
  lemma SlotFits(d: int, i: int)
    requires Desc(d) && 0 <= i < BlocksPer(d)
    ensures 0 <= i * BlockSize(d) && i * BlockSize(d) + BlockSize(d) <= PGSIZE - HEADER
  {
    var s := BlockSize(d);
    var n := BlocksPer(d);
    MulNonNeg(i, s);
    MulMono(i + 1, n, s);
    assert n * s <= PGSIZE - HEADER;
    assert (i + 1) * s == i * s + s;
  }

  /** An arena holds as many blocks as its page has room for: what is left is less than one block. */
  lemma BlocksFill(d: int)
    requires Desc(d)
    ensures BlocksPer(d) * BlockSize(d) <= PGSIZE - HEADER < (BlocksPer(d) + 1) * BlockSize(d)
  {
    var s, n := BlockSize(d), PGSIZE - HEADER;
    assert n == s * (n / s) + n % s;
    assert (n / s + 1) * s == s * (n / s) + s;
  }

  /** Block sizes double from 16 up; the largest is the last below half a page. */
  lemma BlockSizesDouble(d: int)
    requires Desc(d)
    ensures BlockSize(0) == 16 && (d > 0 ==> BlockSize(d) == 2 * BlockSize(d - 1))
    ensures BlockSize(d) < PGSIZE / 2 && (d == DESCS - 1 ==> 2 * BlockSize(d) >= PGSIZE / 2)
  {
  }

  /** `block_to_arena` undoes `arena_to_block`. */
  lemma SlotIs(p: int, d: int, i: int)
    requires Desc(d) && 0 <= i < BlocksPer(d)
    ensures PageOf(Slot(p, d, i)) == p && IsSlot(Slot(p, d, i), d) && SlotIndex(Slot(p, d, i), d) == i
  {
    SlotFits(d, i);
    DivModUnique(Slot(p, d, i), p, HEADER + i * BlockSize(d), PGSIZE);
    DivModUnique(i * BlockSize(d), i, 0, BlockSize(d));
  }

  lemma SlotFrom(b: int, d: int)
    requires Desc(d) && IsSlot(b, d)
    ensures 0 <= SlotIndex(b, d) < BlocksPer(d) && b == Slot(PageOf(b), d, SlotIndex(b, d))
  {
    var o := b % PGSIZE - HEADER;
    assert b == PGSIZE * (b / PGSIZE) + b % PGSIZE;
    assert o == BlockSize(d) * (o / BlockSize(d)) + o % BlockSize(d);
    DivNonNeg(o, BlockSize(d));
  }

  lemma DivNonNeg(a: int, k: int)
    requires a >= 0 && k > 0
    ensures a / k >= 0
  {
  }

  lemma SlotInside(b: int, d: int)
    requires Desc(d) && IsSlot(b, d)
    ensures PGSIZE * PageOf(b) + HEADER <= b && b + BlockSize(d) <= PGSIZE * (PageOf(b) + 1)
  {
    SlotFrom(b, d);
    SlotFits(d, SlotIndex(b, d));
  }

  /** Two blocks of one arena do not overlap. */
  lemma SlotsDisjoint(b: int, c: int, d: int)
    requires Desc(d) && IsSlot(b, d) && IsSlot(c, d) && PageOf(b) == PageOf(c) && b != c
    ensures b + BlockSize(d) <= c || c + BlockSize(d) <= b
  {
    SlotFrom(b, d);
    SlotFrom(c, d);
    var i, j, s := SlotIndex(b, d), SlotIndex(c, d), BlockSize(d);
    assert (i - j) * s == i * s - j * s;
    Multiple(i - j, s);
  }

  // ----- counting -----

  /** How many blocks of the list lie on page `p`. */
  function CountIn(l: seq<int>, p: int): nat {
    if l == [] then 0 else CountIn(l[1..], p) + if PageOf(l[0]) == p then 1 else 0
  }

  lemma {:induction false} CountConcat(l: seq<int>, m: seq<int>, p: int)
    ensures CountIn(l + m, p) == CountIn(l, p) + CountIn(m, p)
  {
    if l == [] {
      assert l + m == m;
    } else {
      assert (l + m)[1..] == l[1..] + m && (l + m)[0] == l[0];
      CountConcat(l[1..], m, p);
    }
  }

  lemma CountOne(x: int, p: int)
    ensures CountIn([x], p) == if PageOf(x) == p then 1 else 0
  {
    assert [x][1..] == [];
  }

  lemma {:induction false} CountNone(l: seq<int>, p: int)
    requires forall i :: 0 <= i < |l| ==> PageOf(l[i]) != p
    ensures CountIn(l, p) == 0
  {
    if l != [] {
      CountNone(l[1..], p);
    }
  }

  lemma CountWithout(l: seq<int>, x: int, p: int)
    requires x in l
    ensures CountIn(l, p) == CountIn(Without(l, x), p) + if PageOf(x) == p then 1 else 0
  {
    var a := IndexOf(l, x);
    assert l == l[..a] + [x] + l[a + 1..];
    CountConcat(l[..a] + [x], l[a + 1..], p);
    CountConcat(l[..a], [x], p);
    CountConcat(l[..a], l[a + 1..], p);
    CountOne(x, p);
  }

  /** The list without the blocks of page `p`. */
  function OffPage(l: seq<int>, p: int): seq<int> {
    if l == [] then [] else if PageOf(l[0]) == p then OffPage(l[1..], p) else [l[0]] + OffPage(l[1..], p)
  }

  lemma {:induction false} OffPageConcat(l: seq<int>, m: seq<int>, p: int)
    ensures OffPage(l + m, p) == OffPage(l, p) + OffPage(m, p)
  {
    if l == [] {
      assert l + m == m;
    } else {
      assert (l + m)[1..] == l[1..] + m && (l + m)[0] == l[0];
      OffPageConcat(l[1..], m, p);
      assert [l[0]] + (OffPage(l[1..], p) + OffPage(m, p)) == [l[0]] + OffPage(l[1..], p) + OffPage(m, p);
    }
  }

  lemma {:induction false} OffPageAll(l: seq<int>, p: int)
    requires forall i :: 0 <= i < |l| ==> PageOf(l[i]) != p
    ensures OffPage(l, p) == l
  {
    if l != [] {
      OffPageAll(l[1..], p);
    }
  }

  lemma OffPageOne(x: int, p: int)
    ensures OffPage([x], p) == if PageOf(x) == p then [] else [x]
  {
    assert [x][1..] == [];
  }

  /** Unlinking a block of the page does not disturb the others. */
  lemma OffPageWithout(l: seq<int>, x: int, p: int)
    requires x in l && PageOf(x) == p
    ensures OffPage(Without(l, x), p) == OffPage(l, p)
  {
    var a := IndexOf(l, x);
    assert l == l[..a] + [x] + l[a + 1..];
    OffPageConcat(l[..a] + [x], l[a + 1..], p);
    OffPageConcat(l[..a], [x], p);
    OffPageConcat(l[..a], l[a + 1..], p);
    OffPageOne(x, p);
  }

  /** The blocks of the list that lie on page `p`. */
  ghost function OnPage(l: seq<int>, p: int): set<int> {
    set b | b in Elems(l) && PageOf(b) == p
  }

  lemma {:induction false} OnPageCard(l: seq<int>, p: int)
    requires Distinct(l)
    ensures |OnPage(l, p)| == CountIn(l, p)
  {
    if l != [] {
      var x, t := l[0], l[1..];
      OnPageCard(t, p);
      assert x !in t;
      assert Elems(l) == Elems(t) + {x};
      if PageOf(x) == p {
        assert OnPage(l, p) == OnPage(t, p) + {x};
        assert x !in OnPage(t, p);
      } else {
        assert OnPage(l, p) == OnPage(t, p);
      }
    }
  }

  /** The first `n` blocks of an arena. */
  ghost function SlotsBelow(p: int, d: int, n: nat): set<int>
    requires Desc(d)
  {
    if n == 0 then {} else SlotsBelow(p, d, n - 1) + {Slot(p, d, n - 1)}
  }

  lemma {:induction false} SlotsBelowAre(p: int, d: int, n: nat, b: int)
    requires Desc(d) && n <= BlocksPer(d)
    ensures b in SlotsBelow(p, d, n) <==> PageOf(b) == p && IsSlot(b, d) && SlotIndex(b, d) < n
  {
    if n > 0 {
      SlotsBelowAre(p, d, n - 1, b);
      SlotIs(p, d, n - 1);
      if PageOf(b) == p && IsSlot(b, d) {
        SlotFrom(b, d);
      }
    } else if IsSlot(b, d) {
      SlotFrom(b, d);
    }
  }

  lemma {:induction false} SlotsBelowCard(p: int, d: int, n: nat)
    requires Desc(d) && n <= BlocksPer(d)
    ensures |SlotsBelow(p, d, n)| == n
  {
    if n > 0 {
      SlotsBelowCard(p, d, n - 1);
      SlotsBelowAre(p, d, n - 1, Slot(p, d, n - 1));
      SlotIs(p, d, n - 1);
    }
  }

  ghost predicate SlotsOn(l: seq<int>, p: int, d: int)
    requires Desc(d)
  {
    forall i :: 0 <= i < |l| && PageOf(l[i]) == p ==> IsSlot(l[i], d)
  }

  lemma OnPageSlots(l: seq<int>, p: int, d: int)
    requires Desc(d) && SlotsOn(l, p, d)
    ensures OnPage(l, p) <= SlotsBelow(p, d, BlocksPer(d))
  {
    forall b | b in OnPage(l, p) ensures b in SlotsBelow(p, d, BlocksPer(d)) {
      assert b in l;
      SlotsBelowAre(p, d, BlocksPer(d), b);
    }
  }

  /** As many blocks of the page on the list as the arena has, exactly when all of them are. */
  lemma FullPage(l: seq<int>, p: int, d: int)
    requires Desc(d) && Distinct(l) && SlotsOn(l, p, d)
    ensures CountIn(l, p) <= BlocksPer(d)
    ensures CountIn(l, p) == BlocksPer(d) <==> SlotsBelow(p, d, BlocksPer(d)) <= Elems(l)
  {
    var all := SlotsBelow(p, d, BlocksPer(d));
    OnPageCard(l, p);
    SlotsBelowCard(p, d, BlocksPer(d));
    OnPageSlots(l, p, d);
    SubsetCard(OnPage(l, p), all);
    if all <= Elems(l) {
      forall b | b in all ensures b in OnPage(l, p) {
        SlotsBelowAre(p, d, BlocksPer(d), b);
      }
      SubsetCard(all, OnPage(l, p));
    }
  }
}
