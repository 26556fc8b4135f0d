/** States of the kernel allocator (pintos_pro3/src/threads/malloc.c) and what its steps keep:
    free counts, disjoint blocks, and pages that are either pooled or owned by one arena. */
module ArenaHeap {

  import opened Lists
  import opened Sets
  import opened ArenaPages

  /** An arena header: the descriptor, or -1 for a big block; free blocks, or pages of a big block. */
  datatype Arena = Arena(desc: int, freeCnt: int)

  /** Free lists by descriptor, arenas by page number, and the page allocator's free pages. */
  datatype Heap = Heap(free: seq<seq<int>>, arenas: map<int, Arena>, pool: set<int>)

  function Span(a: Arena): int {
    if a.desc < 0 then a.freeCnt else 1
  }

  ghost predicate Serves(arenas: map<int, Arena>, p: int, d: int) {
    p in arenas && arenas[p].desc == d
  }

  /** A free list: no block twice, each a block of an arena of this descriptor. */
  ghost predicate ListOk(l: seq<int>, d: int, arenas: map<int, Arena>)
    requires Desc(d)
  {
    Distinct(l) && forall i :: 0 <= i < |l| ==> IsSlot(l[i], d) && Serves(arenas, PageOf(l[i]), d)
  }

  ghost predicate ListsOk(free: seq<seq<int>>, arenas: map<int, Arena>) {
    |free| == DESCS && forall d :: 0 <= d < DESCS ==> ListOk(free[d], d, arenas)
  }

  /** An arena's count is the number of its blocks on its descriptor's free list. */
  ghost predicate CountOk(free: seq<seq<int>>, p: int, a: Arena) {
    |free| == DESCS && if a.desc < 0 then a.freeCnt >= 1 else Desc(a.desc) && a.freeCnt == CountIn(free[a.desc], p)
  }

  ghost predicate CountsOk(free: seq<seq<int>>, arenas: map<int, Arena>) {
    forall p :: p in arenas ==> p >= 1 && CountOk(free, p, arenas[p])
  }

  /** Every arena but `x` has a block in use. */
  ghost predicate BusyBut(arenas: map<int, Arena>, x: int) {
    forall p :: p in arenas && p != x && Desc(arenas[p].desc) ==> arenas[p].freeCnt < BlocksPer(arenas[p].desc)
  }

  /** Arenas own disjoint runs of pages, none of them pooled. */
  ghost predicate Apart(arenas: map<int, Arena>, pool: set<int>) {
    && (forall p, q :: p in arenas && q in arenas && p < q ==> p + Span(arenas[p]) <= q)
    && (forall p, k :: p in arenas && k in pool ==> !(p <= k < p + Span(arenas[p])))
  }

  ghost predicate Owned(arenas: map<int, Arena>, k: int) {
    exists p :: p in arenas && p <= k < p + Span(arenas[p])
  }

  /** No page is lost. */
  ghost predicate Conserved(arenas: map<int, Arena>, pool: set<int>, total: set<int>) {
    forall k :: k in total <==> k in pool || Owned(arenas, k)
  }

  ghost predicate GoodBut(h: Heap, total: set<int>, x: int) {
    && ListsOk(h.free, h.arenas) && CountsOk(h.free, h.arenas) && BusyBut(h.arenas, x)
    && Apart(h.arenas, h.pool) && Conserved(h.arenas, h.pool, total)
  }

  /** The invariant of the allocator; page 0 is never handed out. */
  ghost predicate Good(h: Heap, total: set<int>) {
    GoodBut(h, total, 0)
  }

  // ----- blocks in use -----

  ghost predicate InUse(h: Heap, b: int) {
    && PageOf(b) in h.arenas
    && var a := h.arenas[PageOf(b)];
       if a.desc < 0 then b == PGSIZE * PageOf(b) + HEADER
       else Desc(a.desc) && a.desc < |h.free| && IsSlot(b, a.desc) && b !in h.free[a.desc]
  }

  /** Bytes usable from a block in use: `block_size`. */
  ghost function Capacity(h: Heap, b: int): int
    requires InUse(h, b)
  {
    var a := h.arenas[PageOf(b)];
    if a.desc < 0 then PGSIZE * a.freeCnt - HEADER else BlockSize(a.desc)
  }

  /** A block in use lies in the pages of its arena, past the header. */
  lemma UsedInside(h: Heap, total: set<int>, b: int)
    requires Good(h, total) && InUse(h, b)
    ensures var p := PageOf(b);
      PGSIZE * p + HEADER <= b && b + Capacity(h, b) <= PGSIZE * (p + Span(h.arenas[p]))
  {
    var a := h.arenas[PageOf(b)];
    if a.desc >= 0 {
      SlotInside(b, a.desc);
    }
  }

  /** Blocks in use never overlap. */
  lemma UsedDisjoint(h: Heap, total: set<int>, b: int, c: int)
    requires Good(h, total) && InUse(h, b) && InUse(h, c) && b < c
    ensures b + Capacity(h, b) <= c
  {
    UsedInside(h, total, b);
    UsedInside(h, total, c);
    var p, q := PageOf(b), PageOf(c);
    if p == q {
      var d := h.arenas[p].desc;
      if d >= 0 {
        SlotsDisjoint(b, c, d);
      }
    }
  }

  /** An arena that stays has a block in use; so with none in use every page is back in the pool. */
  lemma ArenaBusy(h: Heap, total: set<int>, p: int) returns (b: int)
    requires Good(h, total) && p in h.arenas
    ensures InUse(h, b) && PageOf(b) == p
  {
    var a := h.arenas[p];
    assert CountOk(h.free, p, a);
    if a.desc < 0 {
      b := PGSIZE * p + HEADER;
    } else {
      var d, l := a.desc, h.free[a.desc];
      assert ListOk(l, d, h.arenas);
      FullPage(l, p, d);
      b := Spare(l, p, d, BlocksPer(d));
    }
  }

  lemma {:induction false} Spare(l: seq<int>, p: int, d: int, n: nat) returns (b: int)
    requires Desc(d) && n <= BlocksPer(d) && !(SlotsBelow(p, d, n) <= Elems(l))
    ensures PageOf(b) == p && IsSlot(b, d) && b !in l
  {
    b := Slot(p, d, n - 1);
    SlotIs(p, d, n - 1);
    if b in l {
      b := Spare(l, p, d, n - 1);
    }
  }

  lemma NothingInUse(h: Heap, total: set<int>)
    requires Good(h, total) && forall b :: !InUse(h, b)
    ensures h.pool == total
  {
    forall k ensures k in total <==> k in h.pool {
      if Owned(h.arenas, k) {
        var p :| p in h.arenas && p <= k < p + Span(h.arenas[p]);
        var b := ArenaBusy(h, total, p);
      }
    }
  }

  // ----- steps -----

  /** Taking the front block of a descriptor's free list. */
  ghost function Pop(h: Heap, d: int): Heap
    requires Desc(d) && |h.free| == DESCS && h.free[d] != [] && PageOf(h.free[d][0]) in h.arenas
  {
    var p := PageOf(h.free[d][0]);
    Heap(h.free[d := h.free[d][1..]], h.arenas[p := h.arenas[p].(freeCnt := h.arenas[p].freeCnt - 1)], h.pool)
  }

  lemma PopGood(h: Heap, total: set<int>, d: int)
    requires Desc(d) && |h.free| == DESCS && h.free[d] != [] && GoodBut(h, total, PageOf(h.free[d][0]))
    ensures PageOf(h.free[d][0]) in h.arenas && Good(Pop(h, d), total)
    ensures InUse(Pop(h, d), h.free[d][0]) && !InUse(h, h.free[d][0])
    ensures Capacity(Pop(h, d), h.free[d][0]) == BlockSize(d)
    ensures forall c :: InUse(Pop(h, d), c) <==> InUse(h, c) || c == h.free[d][0]
  {
    var l := h.free[d];
    var b := l[0];
    assert ListOk(l, d, h.arenas);
    var p := PageOf(b);
    var h' := Pop(h, d);
    PopLists(h, d);
    PopCounts(h, d);
    FullPage(l, p, d);
    forall c ensures InUse(h', c) <==> InUse(h, c) || c == b {
      PopUse(h, d, c);
    }
    SameSpans(h.arenas, h'.arenas, h.pool, total);
  }

  /** Ownership depends on the spans alone. */
  lemma SameSpans(m: map<int, Arena>, n: map<int, Arena>, pool: set<int>, total: set<int>)
    requires m.Keys == n.Keys && forall p :: p in m.Keys ==> Span(m[p]) == Span(n[p])
    requires Apart(m, pool) && Conserved(m, pool, total)
    ensures Apart(n, pool) && Conserved(n, pool, total)
  {
    forall k ensures Owned(m, k) <==> Owned(n, k) {
    }
  }

  lemma PopLists(h: Heap, d: int)
    requires Desc(d) && ListsOk(h.free, h.arenas) && h.free[d] != [] && PageOf(h.free[d][0]) in h.arenas
    ensures ListsOk(Pop(h, d).free, Pop(h, d).arenas)
  {
    var h' := Pop(h, d);
    forall e | 0 <= e < DESCS ensures ListOk(h'.free[e], e, h'.arenas) {
      assert ListOk(h.free[e], e, h.arenas);
    }
  }

  lemma PopCounts(h: Heap, d: int)
    requires Desc(d) && ListsOk(h.free, h.arenas) && CountsOk(h.free, h.arenas) && h.free[d] != []
    requires Serves(h.arenas, PageOf(h.free[d][0]), d)
    ensures CountsOk(Pop(h, d).free, Pop(h, d).arenas)
  {
    var h' := Pop(h, d);
    forall p | p in h'.arenas ensures p >= 1 && CountOk(h'.free, p, h'.arenas[p]) {
      assert CountOk(h.free, p, h.arenas[p]);
    }
  }

  lemma PopUse(h: Heap, d: int, c: int)
    requires Desc(d) && ListsOk(h.free, h.arenas) && h.free[d] != []
    requires Serves(h.arenas, PageOf(h.free[d][0]), d)
    ensures InUse(Pop(h, d), c) <==> InUse(h, c) || c == h.free[d][0]
    ensures !InUse(h, h.free[d][0])
  {
    var l := h.free[d];
    var b := l[0];
    assert ListOk(l, d, h.arenas);
    InTail(l, c);
  }

  lemma InTail(l: seq<int>, c: int)
    requires Distinct(l) && l != []
    ensures c in l[1..] <==> c in l && c != l[0]
  {
    assert l == [l[0]] + l[1..];
  }

  // ----- pages change hands -----

  lemma FreshPage(arenas: map<int, Arena>, pool: set<int>, p: int)
    requires Apart(arenas, pool) && p in pool && forall q :: q in arenas ==> Span(arenas[q]) >= 1
    ensures p !in arenas
  {
  }

  lemma TakePages(arenas: map<int, Arena>, pool: set<int>, total: set<int>, p: int, a: Arena)
    requires Apart(arenas, pool) && Conserved(arenas, pool, total) && p !in arenas && Span(a) >= 1
    requires forall q :: q in arenas ==> Span(arenas[q]) >= 1
    requires Interval(p, p + Span(a)) <= pool
    ensures Apart(arenas[p := a], pool - Interval(p, p + Span(a)))
    ensures Conserved(arenas[p := a], pool - Interval(p, p + Span(a)), total)
  {
    var arenas' := arenas[p := a];
    forall q | q in arenas ensures q + Span(arenas[q]) <= p || p + Span(a) <= q {
      assert p in Interval(p, p + Span(a)) && (p <= q < p + Span(a) ==> q in Interval(p, p + Span(a)));
    }
    forall k ensures Owned(arenas', k) <==> Owned(arenas, k) || p <= k < p + Span(a) {
      if Owned(arenas, k) {
        var q :| q in arenas && q <= k < q + Span(arenas[q]);
        assert q in arenas' && arenas'[q] == arenas[q];
      }
      if p <= k < p + Span(a) {
        assert p in arenas';
      }
    }
  }

  lemma GivePages(arenas: map<int, Arena>, pool: set<int>, total: set<int>, p: int)
    requires Apart(arenas, pool) && Conserved(arenas, pool, total) && p in arenas
    ensures Apart(arenas - {p}, pool + Interval(p, p + Span(arenas[p])))
    ensures Conserved(arenas - {p}, pool + Interval(p, p + Span(arenas[p])), total)
  {
    var rest := arenas - {p};
    forall k ensures Owned(arenas, k) <==> Owned(rest, k) || p <= k < p + Span(arenas[p]) {
      if Owned(arenas, k) {
        var q :| q in arenas && q <= k < q + Span(arenas[q]);
        assert q == p || q in rest;
      }
      if Owned(rest, k) {
        var q :| q in rest && q <= k < q + Span(rest[q]);
        assert q in arenas;
      }
    }
  }

  // ----- a new arena -----

  /** The blocks of an arena, in the order they are put on the free list. */
  ghost function SlotSeq(p: int, d: int, n: nat): seq<int>
    requires Desc(d)
  {
    if n == 0 then [] else SlotSeq(p, d, n - 1) + [Slot(p, d, n - 1)]
  }

  lemma {:induction false} SlotSeqIs(p: int, d: int, n: nat)
    requires Desc(d) && n <= BlocksPer(d)
    ensures |SlotSeq(p, d, n)| == n && forall i :: 0 <= i < n ==> SlotSeq(p, d, n)[i] == Slot(p, d, i)
  {
    if n > 0 {
      SlotSeqIs(p, d, n - 1);
    }
  }

  lemma SlotSeqOk(p: int, d: int, n: nat)
    requires Desc(d) && n <= BlocksPer(d)
    ensures var l := SlotSeq(p, d, n);
      |l| == n && Distinct(l) && forall i :: 0 <= i < |l| ==> IsSlot(l[i], d) && PageOf(l[i]) == p
  {
    SlotSeqIs(p, d, n);
    forall i | 0 <= i < n
      ensures IsSlot(Slot(p, d, i), d) && PageOf(Slot(p, d, i)) == p && SlotIndex(Slot(p, d, i), d) == i
    {
      SlotIs(p, d, i);
    }
  }

  lemma {:induction false} SlotSeqCount(p: int, d: int, n: nat)
    requires Desc(d) && n <= BlocksPer(d)
    ensures CountIn(SlotSeq(p, d, n), p) == n
  {
    if n > 0 {
      SlotSeqCount(p, d, n - 1);
      SlotIs(p, d, n - 1);
      CountConcat(SlotSeq(p, d, n - 1), [Slot(p, d, n - 1)], p);
      CountOne(Slot(p, d, n - 1), p);
    }
  }

  lemma SlotSeqAll(p: int, d: int, b: int)
    requires Desc(d) && PageOf(b) == p && IsSlot(b, d)
    ensures b in SlotSeq(p, d, BlocksPer(d))
  {
    SlotSeqIs(p, d, BlocksPer(d));
    SlotFrom(b, d);
    assert SlotSeq(p, d, BlocksPer(d))[SlotIndex(b, d)] == b;
  }

  /** An empty free list refilled with the blocks of a fresh page. */
  ghost function Grow(h: Heap, p: int, d: int): Heap
    requires Desc(d) && |h.free| == DESCS
  {
    Heap(h.free[d := SlotSeq(p, d, BlocksPer(d))], h.arenas[p := Arena(d, BlocksPer(d))], h.pool - Interval(p, p + 1))
  }

  lemma GrowGood(h: Heap, total: set<int>, p: int, d: int)
    requires Good(h, total) && Desc(d) && h.free[d] == [] && p in h.pool && p >= 1
    ensures GoodBut(Grow(h, p, d), total, p)
    ensures var l := Grow(h, p, d).free[d]; |l| == BlocksPer(d) && l != [] && PageOf(l[0]) == p
    ensures forall c :: InUse(Grow(h, p, d), c) <==> InUse(h, c)
  {
    FreshPage(h.arenas, h.pool, p);
    var h' := Grow(h, p, d);
    TakePages(h.arenas, h.pool, total, p, Arena(d, BlocksPer(d)));
    GrowLists(h, p, d);
    GrowCounts(h, p, d);
    SlotSeqOk(p, d, BlocksPer(d));
    forall c ensures InUse(h', c) <==> InUse(h, c) {
      GrowUse(h, p, d, c);
    }
    assert BlocksPer(d) >= 1 by { SomeBlocks(d); }
  }

  lemma SomeBlocks(d: int)
    requires Desc(d)
    ensures BlocksPer(d) >= 1
  {
    Arith.DivAtLeast(PGSIZE - HEADER, BlockSize(d), 1);
  }

  lemma GrowLists(h: Heap, p: int, d: int)
    requires ListsOk(h.free, h.arenas) && Desc(d) && p !in h.arenas
    ensures ListsOk(Grow(h, p, d).free, Grow(h, p, d).arenas)
  {
    var h' := Grow(h, p, d);
    SlotSeqOk(p, d, BlocksPer(d));
    forall e | 0 <= e < DESCS ensures ListOk(h'.free[e], e, h'.arenas) {
      assert ListOk(h.free[e], e, h.arenas);
    }
  }

  lemma GrowCounts(h: Heap, p: int, d: int)
    requires CountsOk(h.free, h.arenas) && Desc(d) && |h.free| == DESCS && h.free[d] == [] && p !in h.arenas && p >= 1
    ensures CountsOk(Grow(h, p, d).free, Grow(h, p, d).arenas)
  {
    var h' := Grow(h, p, d);
    SlotSeqOk(p, d, BlocksPer(d));
    SlotSeqCount(p, d, BlocksPer(d));
    forall q | q in h'.arenas ensures q >= 1 && CountOk(h'.free, q, h'.arenas[q]) {
      if q != p {
        assert CountOk(h.free, q, h.arenas[q]);
        CountNone(h'.free[d], q);
      }
    }
  }

  lemma GrowUse(h: Heap, p: int, d: int, c: int)
    requires CountsOk(h.free, h.arenas) && ListsOk(h.free, h.arenas) && Desc(d) && h.free[d] == [] && p !in h.arenas
    ensures InUse(Grow(h, p, d), c) <==> InUse(h, c)
  {
    if PageOf(c) == p {
      if IsSlot(c, d) {
        SlotSeqAll(p, d, c);
      }
    } else {
      SlotSeqOk(p, d, BlocksPer(d));
      assert c !in SlotSeq(p, d, BlocksPer(d));
    }
  }

  // ----- freeing -----

  /** A small block put at the front of its descriptor's free list. */
  ghost function Push(h: Heap, b: int): Heap
    requires |h.free| == DESCS && PageOf(b) in h.arenas && Desc(h.arenas[PageOf(b)].desc)
  {
    var p := PageOf(b);
    var a := h.arenas[p];
    Heap(h.free[a.desc := [b] + h.free[a.desc]], h.arenas[p := Arena(a.desc, a.freeCnt + 1)], h.pool)
  }

  lemma PushGood(h: Heap, total: set<int>, b: int)
    requires Good(h, total) && InUse(h, b) && h.arenas[PageOf(b)].desc >= 0
    ensures GoodBut(Push(h, b), total, PageOf(b))
    ensures Push(h, b).arenas[PageOf(b)].freeCnt <= BlocksPer(h.arenas[PageOf(b)].desc)
    ensures forall c :: InUse(Push(h, b), c) <==> InUse(h, c) && c != b
  {
    var h' := Push(h, b);
    PushLists(h, b);
    PushCounts(h, b);
    SameSpans(h.arenas, h'.arenas, h.pool, total);
    forall c ensures InUse(h', c) <==> InUse(h, c) && c != b {
      PushUse(h, b, c);
    }
  }

  lemma PushLists(h: Heap, b: int)
    requires ListsOk(h.free, h.arenas) && InUse(h, b) && h.arenas[PageOf(b)].desc >= 0
    ensures ListsOk(Push(h, b).free, Push(h, b).arenas)
  {
    var h' := Push(h, b);
    forall e | 0 <= e < DESCS ensures ListOk(h'.free[e], e, h'.arenas) {
      assert ListOk(h.free[e], e, h.arenas);
    }
  }

  lemma PushCounts(h: Heap, b: int)
    requires ListsOk(h.free, h.arenas) && CountsOk(h.free, h.arenas) && InUse(h, b) && h.arenas[PageOf(b)].desc >= 0
    ensures CountsOk(Push(h, b).free, Push(h, b).arenas)
  {
    var h' := Push(h, b);
    var d := h.arenas[PageOf(b)].desc;
    forall q | q in h'.arenas ensures q >= 1 && CountOk(h'.free, q, h'.arenas[q]) {
      assert CountOk(h.free, q, h.arenas[q]);
      CountConcat([b], h.free[d], q);
      CountOne(b, q);
    }
  }

  lemma PushUse(h: Heap, b: int, c: int)
    requires ListsOk(h.free, h.arenas) && InUse(h, b) && h.arenas[PageOf(b)].desc >= 0
    ensures InUse(Push(h, b), c) <==> InUse(h, c) && c != b
  {
  }

  /** `m` is `l` without the blocks of page `p`. */
  ghost predicate Purged(l: seq<int>, m: seq<int>, p: int) {
    && Distinct(m) && (forall i :: 0 <= i < |m| ==> m[i] in l && PageOf(m[i]) != p)
    && (forall i :: 0 <= i < |l| && PageOf(l[i]) != p ==> l[i] in m)
    && (forall q :: q != p ==> CountIn(m, q) == CountIn(l, q))
  }

  /** A wholly free arena given back: its blocks leave the free list, its page joins the pool. */
  ghost function Drop(h: Heap, p: int, m: seq<int>): Heap
    requires |h.free| == DESCS && p in h.arenas && Desc(h.arenas[p].desc)
  {
    Heap(h.free[h.arenas[p].desc := m], h.arenas - {p}, h.pool + Interval(p, p + 1))
  }

  lemma DropGood(h: Heap, total: set<int>, p: int, m: seq<int>)
    requires GoodBut(h, total, p) && p in h.arenas && Desc(h.arenas[p].desc)
    requires h.arenas[p].freeCnt == BlocksPer(h.arenas[p].desc) && Purged(h.free[h.arenas[p].desc], m, p)
    ensures Good(Drop(h, p, m), total)
    ensures forall c :: InUse(Drop(h, p, m), c) <==> InUse(h, c)
  {
    var h' := Drop(h, p, m);
    var d, l := h.arenas[p].desc, h.free[h.arenas[p].desc];
    GivePages(h.arenas, h.pool, total, p);
    DropLists(h, p, m);
    DropCounts(h, p, m);
    assert CountOk(h.free, p, h.arenas[p]) && ListOk(l, d, h.arenas);
    FullPage(l, p, d);
    forall c ensures InUse(h', c) <==> InUse(h, c) {
      DropUse(h, p, m, c);
    }
  }

  lemma DropLists(h: Heap, p: int, m: seq<int>)
    requires ListsOk(h.free, h.arenas) && p in h.arenas && Desc(h.arenas[p].desc)
    requires Purged(h.free[h.arenas[p].desc], m, p)
    ensures ListsOk(Drop(h, p, m).free, Drop(h, p, m).arenas)
  {
    var h' := Drop(h, p, m);
    forall e | 0 <= e < DESCS ensures ListOk(h'.free[e], e, h'.arenas) {
      assert ListOk(h.free[e], e, h.arenas);
    }
  }

  lemma DropCounts(h: Heap, p: int, m: seq<int>)
    requires CountsOk(h.free, h.arenas) && |h.free| == DESCS && p in h.arenas && Desc(h.arenas[p].desc)
    requires Purged(h.free[h.arenas[p].desc], m, p)
    ensures CountsOk(Drop(h, p, m).free, Drop(h, p, m).arenas)
  {
    var h' := Drop(h, p, m);
    forall q | q in h'.arenas ensures q >= 1 && CountOk(h'.free, q, h'.arenas[q]) {
      assert CountOk(h.free, q, h.arenas[q]);
    }
  }

  lemma DropUse(h: Heap, p: int, m: seq<int>, c: int)
    requires |h.free| == DESCS && p in h.arenas && Desc(h.arenas[p].desc) && Purged(h.free[h.arenas[p].desc], m, p)
    requires SlotsBelow(p, h.arenas[p].desc, BlocksPer(h.arenas[p].desc)) <= Elems(h.free[h.arenas[p].desc])
    ensures InUse(Drop(h, p, m), c) <==> InUse(h, c)
  {
    var d := h.arenas[p].desc;
    if PageOf(c) == p {
      if IsSlot(c, d) {
        SlotsBelowAre(p, d, BlocksPer(d), c);
      }
    } else {
      assert c in m <==> c in h.free[d];
    }
  }

  // ----- big blocks -----

  ghost function TakeBig(h: Heap, p: int, n: int): Heap {
    Heap(h.free, h.arenas[p := Arena(-1, n)], h.pool - Interval(p, p + n))
  }

  lemma TakeBigGood(h: Heap, total: set<int>, p: int, n: int)
    requires Good(h, total) && n >= 1 && p >= 1 && Interval(p, p + n) <= h.pool
    ensures Good(TakeBig(h, p, n), total)
    ensures forall c :: InUse(TakeBig(h, p, n), c) <==> InUse(h, c) || c == PGSIZE * p + HEADER
    ensures !InUse(h, PGSIZE * p + HEADER)
    ensures Capacity(TakeBig(h, p, n), PGSIZE * p + HEADER) == PGSIZE * n - HEADER
  {
    assert p in h.pool;
    FreshPage(h.arenas, h.pool, p);
    var h' := TakeBig(h, p, n);
    TakePages(h.arenas, h.pool, total, p, Arena(-1, n));
    TakeBigLists(h, p, n);
    forall c ensures InUse(h', c) <==> InUse(h, c) || c == PGSIZE * p + HEADER {
      TakeBigUse(h, p, n, c);
    }
    TakeBigUse(h, p, n, PGSIZE * p + HEADER);
  }

  lemma TakeBigLists(h: Heap, p: int, n: int)
    requires ListsOk(h.free, h.arenas) && CountsOk(h.free, h.arenas) && n >= 1 && p >= 1 && p !in h.arenas
    ensures ListsOk(h.free, TakeBig(h, p, n).arenas) && CountsOk(h.free, TakeBig(h, p, n).arenas)
  {
    var h' := TakeBig(h, p, n);
    forall e | 0 <= e < DESCS ensures ListOk(h'.free[e], e, h'.arenas) {
      assert ListOk(h.free[e], e, h.arenas);
    }
    forall q | q in h'.arenas ensures q >= 1 && CountOk(h'.free, q, h'.arenas[q]) {
      assert q != p ==> CountOk(h.free, q, h.arenas[q]);
    }
  }

  lemma TakeBigUse(h: Heap, p: int, n: int, c: int)
    requires p !in h.arenas
    ensures InUse(TakeBig(h, p, n), c) <==> InUse(h, c) || c == PGSIZE * p + HEADER
    ensures !InUse(h, PGSIZE * p + HEADER)
  {
  }

  ghost function GiveBig(h: Heap, p: int): Heap
    requires p in h.arenas
  {
    Heap(h.free, h.arenas - {p}, h.pool + Interval(p, p + h.arenas[p].freeCnt))
  }

  lemma GiveBigGood(h: Heap, total: set<int>, p: int)
    requires Good(h, total) && p in h.arenas && h.arenas[p].desc < 0
    ensures Good(GiveBig(h, p), total)
    ensures forall c :: InUse(GiveBig(h, p), c) <==> InUse(h, c) && c != PGSIZE * p + HEADER
  {
    var h' := GiveBig(h, p);
    GivePages(h.arenas, h.pool, total, p);
    GiveBigLists(h, p);
    forall c ensures InUse(h', c) <==> InUse(h, c) && c != PGSIZE * p + HEADER {
      GiveBigUse(h, p, c);
    }
  }

  lemma GiveBigLists(h: Heap, p: int)
    requires ListsOk(h.free, h.arenas) && CountsOk(h.free, h.arenas) && p in h.arenas && h.arenas[p].desc < 0
    ensures ListsOk(h.free, GiveBig(h, p).arenas) && CountsOk(h.free, GiveBig(h, p).arenas)
  {
    var h' := GiveBig(h, p);
    forall e | 0 <= e < DESCS ensures ListOk(h'.free[e], e, h'.arenas) {
      assert ListOk(h.free[e], e, h.arenas);
    }
    forall q | q in h'.arenas ensures q >= 1 && CountOk(h'.free, q, h'.arenas[q]) {
      assert CountOk(h.free, q, h.arenas[q]);
    }
  }

  lemma GiveBigUse(h: Heap, p: int, c: int)
    requires p in h.arenas && h.arenas[p].desc < 0
    ensures InUse(GiveBig(h, p), c) <==> InUse(h, c) && c != PGSIZE * p + HEADER
  {
  }
}
