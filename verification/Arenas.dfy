/** The kernel's `malloc` and `free` (pintos_pro3/src/threads/malloc.c). The page allocator's choice
    of pages, or its refusal, is an argument. */
module Arenas {

  import opened Sets
  import opened Lists
  import opened ArenaPages
  import opened ArenaHeap
  import opened Machine

  /** Pages asked for a big block, in the 32-bit arithmetic of `DIV_ROUND_UP`. */
  function PageCount(size: int): int {
    ((size + HEADER + PGSIZE - 1) % B32) / PGSIZE
  }

  /** The rounding gives the fewest pages that are enough, or none at all, except within 11 bytes of
      the top of the address space, where the sum wraps to one page. */
  lemma PageCountExact(size: int)
    requires 1024 < size < B32
    ensures PageCount(size) >= 0
    ensures (PageCount(size) >= 1 ==> PGSIZE * PageCount(size) - HEADER >= size) <==> size < B32 - 11
    ensures PageCount(size) == 0 <==> B32 - 4107 <= size < B32 - 11
    ensures size < B32 - 4107 ==> PGSIZE * (PageCount(size) - 1) - HEADER < size
  {
    var sum := size + HEADER + PGSIZE - 1;
    if sum >= B32 {
      assert sum % B32 == sum - B32;
    }
  }

  class Allocator {
    var sizes: seq<int>
    var free: seq<seq<int>>
    var arenas: map<int, Arena>
    var pool: set<int>
    ghost var total: set<int>

    ghost function State(): Heap
      reads this
    {
      Heap(free, arenas, pool)
    }

    ghost predicate Valid()
      reads this
    {
      Good(State(), total) && |sizes| == DESCS && forall d :: 0 <= d < DESCS ==> sizes[d] == BlockSize(d)
    }

    /** `malloc_init`, beside a page allocator that has the given pages. */
    constructor (pages: set<int>)
      requires forall p :: p in pages ==> p >= 1
      ensures Valid() && pool == pages == total && forall b :: !InUse(State(), b)
    {
      arenas, pool, total := map[], pages, pages;
      var s, f := [], [];
      var size := 16;
      while size < PGSIZE / 2
        invariant |s| == |f| <= DESCS && size == if |s| == DESCS then 2048 else BlockSize(|s|)
        invariant forall d :: 0 <= d < |s| ==> s[d] == BlockSize(d) && f[d] == []
        decreases DESCS - |s|
      {
        s, f := s + [size], f + [[]];
        size := size * 2;
      }
      sizes, free := s, f;
    }

    /** The smallest descriptor whose blocks are large enough, or the number of descriptors. */
    method FindDesc(size: int) returns (d: nat)
      requires |sizes| == DESCS && forall e :: 0 <= e < DESCS ==> sizes[e] == BlockSize(e)
      ensures d < DESCS ==> Smallest(d, size)
      ensures d <= DESCS && forall e :: 0 <= e < d ==> BlockSize(e) < size
    {
      d := 0;
      while d < |sizes| && sizes[d] < size
        invariant d <= DESCS
        invariant forall e :: 0 <= e < d ==> BlockSize(e) < size
      {
        d := d + 1;
      }
    }

    /** The descriptor part of `malloc`: a fresh arena if the list is empty, then the front block. */
    method Small(d: nat, page: int) returns (b: int)
      requires Valid() && d < DESCS && (page == 0 || (page >= 1 && page in pool))
      modifies this`free, this`arenas, this`pool
      ensures Valid()
      ensures b == 0 <==> old(free[d] == []) && page == 0
      ensures b == 0 ==> State() == old(State())
      ensures b != 0 ==> Taken(old(State()), State(), b) && Capacity(State(), b) == BlockSize(d)
      ensures b != 0 ==> FrontTaken(old(State()), State(), d, page, b)
    {
      if free[d] == [] {
        if page == 0 {
          return 0;
        }
        GrowGood(State(), total, page, d);
        NewArena(d, page);
        SlotSeqIs(page, d, BlocksPer(d));
      }
      b := TakeFront(d);
    }

    /** Taking the front block of a nonempty free list. */
    method TakeFront(d: nat) returns (b: int)
      requires d < DESCS && |free| == DESCS && free[d] != [] && GoodBut(State(), total, PageOf(free[d][0]))
      modifies this`free, this`arenas
      ensures Good(State(), total) && b != 0 && Taken(old(State()), State(), b) && Capacity(State(), b) == BlockSize(d)
      ensures |free| == DESCS && [b] + free[d] == old(free[d]) && free == old(free)[d := free[d]]
    {
      PopGood(State(), total, d);
      b := free[d][0];
      assert ListOk(free[d], d, arenas);
      NotNull(b, d);
      var p := PageOf(b);
      free := free[d := free[d][1..]];
      arenas := arenas[p := arenas[p].(freeCnt := arenas[p].freeCnt - 1)];
    }

    /** Header and blocks of a fresh arena. */
    method NewArena(d: nat, page: int)
      requires d < DESCS && |free| == DESCS && free[d] == []
      modifies this`free, this`arenas, this`pool
      ensures State() == Grow(old(State()), page, d)
    {
      pool := pool - Interval(page, page + 1);
      var n := BlocksPer(d);
      arenas := arenas[page := Arena(d, n)];
      var l := [];
      for i := 0 to n
        invariant l == SlotSeq(page, d, i)
      {
        l := l + [Slot(page, d, i)];
      }
      free := free[d := l];
    }

    /** `malloc`. `page` is the page allocator's answer to the request, 0 for none. */
    method Malloc(size: int, page: int) returns (b: int)
      requires Valid() && 0 <= size < B32
      requires page == 0 || (page >= 1 && Asked(size) >= 1 && Interval(page, page + Asked(size)) <= pool)
      modifies this`free, this`arenas, this`pool
      ensures Valid()
      ensures b == 0 <==> size == 0 || (page == 0 && NeedsPage(old(free), size))
      ensures b == 0 ==> State() == old(State())
      ensures b != 0 ==> Taken(old(State()), State(), b) && Served(old(State()), State(), size, page, b)
      ensures b != 0 ==> (Capacity(State(), b) >= size <==> size < B32 - 11)
      ensures b != 0 && size <= 1024 ==>
        forall e :: 0 <= e < DESCS && BlockSize(e) >= size ==> Capacity(State(), b) <= BlockSize(e)
    {
      if size == 0 {
        return 0;
      }
      var d := FindDesc(size);
      AskedIs(size, d);
      if d < DESCS {
        SmallestIs(d, size, free);
        assert page != 0 ==> page in pool;
        b := Small(d, page);
      } else {
        b := Big(size, page);
      }
    }

    /** The big-block part of `malloc`. */
    method Big(size: int, page: int) returns (b: int)
      requires Valid() && 1024 < size < B32
      requires page == 0 || (page >= 1 && PageCount(size) >= 1 && Interval(page, page + PageCount(size)) <= pool)
      modifies this`arenas, this`pool
      ensures Valid()
      ensures b == 0 <==> page == 0
      ensures b == 0 ==> State() == old(State())
      ensures b != 0 ==> Taken(old(State()), State(), b) && b == PGSIZE * page + HEADER
      ensures b != 0 ==> pool == old(pool) - Interval(page, page + PageCount(size))
      ensures b != 0 ==> (Capacity(State(), b) >= size <==> size < B32 - 11)
    {
      var n := PageCount(size);
      if page == 0 {
        return 0;
      }
      PageCountExact(size);
      TakeBigGood(State(), total, page, n);
      pool := pool - Interval(page, page + n);
      arenas := arenas[page := Arena(-1, n)];
      b := PGSIZE * page + HEADER;
    }

    /** `free` of a null pointer or of any block in use. The arena's page goes back exactly when no
        other block of it is in use. */
    method Free(b: int)
      requires Valid() && (b == 0 || InUse(State(), b))
      modifies this`free, this`arenas, this`pool
      ensures Valid()
      ensures b == 0 ==> State() == old(State())
      ensures b != 0 ==> Returned(old(State()), State(), b) && Listed(old(State()), State(), b)
    {
      if b == 0 {
        return;
      }
      if arenas[PageOf(b)].desc >= 0 {
        FreeSmall(b);
      } else {
        FreeBig(b);
      }
      ReturnedPage(old(State()), State(), total, b);
    }

    method FreeBig(b: int)
      requires Valid() && InUse(State(), b) && arenas[PageOf(b)].desc < 0
      modifies this`arenas, this`pool
      ensures Valid()
      ensures forall c :: InUse(State(), c) <==> InUse(old(State()), c) && c != b
      ensures Moved(old(State()), State(), PageOf(b))
    {
      var p := PageOf(b);
      GiveBigGood(State(), total, p);
      pool := pool + Interval(p, p + arenas[p].freeCnt);
      arenas := arenas - {p};
    }

    method FreeSmall(b: int)
      requires Valid() && InUse(State(), b) && arenas[PageOf(b)].desc >= 0
      modifies this`free, this`arenas, this`pool
      ensures Valid()
      ensures forall c :: InUse(State(), c) <==> InUse(old(State()), c) && c != b
      ensures Moved(old(State()), State(), PageOf(b)) && Listed(old(State()), State(), b)
    {
      var p := PageOf(b);
      var d := arenas[p].desc;
      ghost var lists := free;
      PushFront(b);
      if arenas[p].freeCnt >= BlocksPer(d) {
        DropArena(p);
        FreedOffPage(lists, d, b);
      } else {
        Settled(State(), total, p);
      }
    }

    /** The block joins the front of its list and its arena counts it. */
    method PushFront(b: int)
      requires Valid() && InUse(State(), b) && arenas[PageOf(b)].desc >= 0
      modifies this`free, this`arenas
      ensures State() == Push(old(State()), b) && GoodBut(State(), total, PageOf(b))
      ensures arenas[PageOf(b)].freeCnt <= BlocksPer(arenas[PageOf(b)].desc)
      ensures forall c :: InUse(State(), c) <==> InUse(old(State()), c) && c != b
    {
      var p := PageOf(b);
      var d := arenas[p].desc;
      PushGood(State(), total, b);
      free := free[d := [b] + free[d]];
      arenas := arenas[p := Arena(d, arenas[p].freeCnt + 1)];
    }

    /** Removing a wholly free arena's blocks from the free list and its page from service. */
    method DropArena(p: int)
      requires GoodBut(State(), total, p) && p in arenas && Desc(arenas[p].desc)
      requires arenas[p].freeCnt == BlocksPer(arenas[p].desc)
      modifies this`free, this`arenas, this`pool
      ensures Good(State(), total)
      ensures forall c :: InUse(State(), c) <==> InUse(old(State()), c)
      ensures arenas == old(arenas) - {p} && pool == old(pool) + Interval(p, p + 1)
      ensures |old(free)| == DESCS && free == var d := old(arenas[p].desc); old(free)[d := OffPage(old(free[d]), p)]
    {
      var d := arenas[p].desc;
      assert CountOk(free, p, arenas[p]) && ListOk(free[d], d, arenas);
      FullPage(free[d], p, d);
      var m := Purge(free[d], p, d);
      DropGood(State(), total, p, m);
      free := free[d := m];
      arenas := arenas - {p};
      pool := pool + Interval(p, p + 1);
    }
  }

  /** Pages the request needs from the page allocator, if it needs any. */
  function Asked(size: int): int {
    if size <= 1024 then 1 else PageCount(size)
  }

  /** The first descriptor whose blocks are large enough. */
  ghost predicate Smallest(d: int, size: int) {
    Desc(d) && BlockSize(d) >= size && forall e :: 0 <= e < d ==> BlockSize(e) < size
  }

  /** A page is needed for a big block, or when the right free list is empty. */
  ghost predicate NeedsPage(free: seq<seq<int>>, size: int) {
    size > 1024 || exists d :: Smallest(d, size) && d < |free| && free[d] == []
  }

  lemma SmallestIs(d: int, size: int, free: seq<seq<int>>)
    requires Smallest(d, size) && |free| == DESCS
    ensures NeedsPage(free, size) <==> free[d] == []
    ensures forall e :: 0 <= e < DESCS && BlockSize(e) >= size ==> BlockSize(d) <= BlockSize(e)
  {
    assert size <= 1024;
    forall e | Smallest(e, size) ensures e == d {
      assert BlockSize(d) >= size && BlockSize(e) >= size;
    }
  }

  lemma AskedIs(size: int, d: int)
    requires 0 <= d <= DESCS && (d < DESCS ==> BlockSize(d) >= size)
    requires forall e :: 0 <= e < d ==> BlockSize(e) < size
    ensures d < DESCS <==> size <= 1024
  {
    if d == DESCS {
      assert BlockSize(6) == 1024;
    }
  }

  /** The front block of a descriptor's free list was handed out, or of a fresh arena's blocks in
      rising order. */
  ghost predicate FrontTaken(g: Heap, h: Heap, d: nat, page: int, b: int) {
    && d < DESCS == |g.free| == |h.free|
    && (forall e :: 0 <= e < DESCS && e != d ==> h.free[e] == g.free[e])
    && h.pool == (if g.free[d] == [] then g.pool - Interval(page, page + 1) else g.pool)
    && (g.free[d] != [] ==> [b] + h.free[d] == g.free[d])
    && (g.free[d] == [] ==> b == Slot(page, d, 0) && |h.free[d]| == BlocksPer(d) - 1)
    && (g.free[d] == [] ==> forall i :: 0 <= i < |h.free[d]| ==> h.free[d][i] == Slot(page, d, i + 1))
  }

  /** Where a block came from: a big one from the pages given, any other from the smallest free list
      that will do. */
  ghost predicate Served(g: Heap, h: Heap, size: int, page: int, b: int) {
    if size > 1024 then
      h.free == g.free && b == PGSIZE * page + HEADER && h.pool == g.pool - Interval(page, page + PageCount(size))
    else exists d: nat :: Smallest(d, size) && FrontTaken(g, h, d, page, b)
  }

  /** Where a freed block went: to the front of its list, which loses the whole page's blocks, and
      only these, when the page goes back; a big block is on no list. */
  ghost predicate Listed(g: Heap, h: Heap, b: int) {
    && PageOf(b) in g.arenas && |g.free| == |h.free| == DESCS
    && var p, d := PageOf(b), g.arenas[PageOf(b)].desc;
       if !Desc(d) then h.free == g.free
       else h.free == g.free[d := if p in h.arenas then [b] + g.free[d] else OffPage(g.free[d], p)]
  }

  lemma FreedOffPage(lists: seq<seq<int>>, d: nat, b: int)
    requires d < |lists|
    ensures var l, p := [b] + lists[d], PageOf(b);
            lists[d := l][d := OffPage(l, p)] == lists[d := OffPage(lists[d], p)]
  {
    OffPageConcat([b], lists[d], PageOf(b));
    OffPageOne(b, PageOf(b));
  }

  /** The block freed last is handed out first, and the free lists are then as they were. */
  lemma LastFreedFirst(g: Heap, h: Heap, k: Heap, b: int, d: nat, page: int, c: int)
    requires Listed(g, h, b) && PageOf(b) in h.arenas && g.arenas[PageOf(b)].desc == d && FrontTaken(h, k, d, page, c)
    ensures c == b && k.free == g.free && k.pool == h.pool
  {
    assert ([b] + g.free[d])[0] == ([c] + k.free[d])[0];
    assert ([b] + g.free[d])[1..] == ([c] + k.free[d])[1..];
  }

  // ----- taking an arena's blocks off the free list -----

  ghost predicate PurgedTo(l: seq<int>, m: seq<int>, p: int, d: int, i: nat)
    requires Desc(d)
  {
    && Distinct(m) && Elems(m) == Elems(l) - SlotsBelow(p, d, i)
    && (forall q :: q != p ==> CountIn(m, q) == CountIn(l, q))
    && OffPage(m, p) == OffPage(l, p)
  }

  /** The removal loop of `free`; every block it unlinks is on the list. */
  method Purge(l: seq<int>, p: int, d: int) returns (m: seq<int>)
    requires Desc(d) && Distinct(l) && SlotsOn(l, p, d) && SlotsBelow(p, d, BlocksPer(d)) <= Elems(l)
    ensures Purged(l, m, p) && m == OffPage(l, p)
  {
    m := l;
    for i := 0 to BlocksPer(d)
      invariant PurgedTo(l, m, p, d, i)
    {
      PurgeStep(l, m, p, d, i);
      m := Erase(m, Slot(p, d, i));
    }
    PurgeDone(l, m, p, d);
  }

  lemma PurgeStep(l: seq<int>, m: seq<int>, p: int, d: int, i: nat)
    requires Desc(d) && i < BlocksPer(d) && PurgedTo(l, m, p, d, i) && SlotsBelow(p, d, BlocksPer(d)) <= Elems(l)
    ensures Slot(p, d, i) in m && PurgedTo(l, Without(m, Slot(p, d, i)), p, d, i + 1)
  {
    var x := Slot(p, d, i);
    SlotIs(p, d, i);
    SlotsBelowAre(p, d, i, x);
    SlotsBelowAre(p, d, BlocksPer(d), x);
    assert x in Elems(m);
    ElemsWithout(m, x);
    OffPageWithout(m, x, p);
    forall q | q != p ensures CountIn(Without(m, x), q) == CountIn(l, q) {
      CountWithout(m, x, q);
    }
  }

  lemma PurgeDone(l: seq<int>, m: seq<int>, p: int, d: int)
    requires Desc(d) && PurgedTo(l, m, p, d, BlocksPer(d)) && SlotsOn(l, p, d)
    ensures Purged(l, m, p) && m == OffPage(l, p)
  {
    forall i | 0 <= i < |m| ensures m[i] in l && PageOf(m[i]) != p {
      var x := m[i];
      assert x in Elems(m);
      SlotsBelowAre(p, d, BlocksPer(d), x);
    }
    forall i | 0 <= i < |l| && PageOf(l[i]) != p ensures l[i] in m {
      var x := l[i];
      assert x in Elems(l);
      SlotsBelowAre(p, d, BlocksPer(d), x);
      assert x in Elems(m);
    }
    OffPageAll(m, p);
  }

  // ----- what a call changed -----

  /** Exactly one more block in use. */
  ghost predicate Taken(g: Heap, h: Heap, b: int) {
    && InUse(h, b) && !InUse(g, b)
    && forall c :: InUse(h, c) <==> InUse(g, c) || c == b
  }

  lemma NotNull(b: int, d: int)
    requires Desc(d) && IsSlot(b, d) && PageOf(b) >= 1
    ensures b != 0
  {
  }

  /** Page `p` either stays an arena, or goes back to the pool with all its run. */
  ghost predicate Moved(g: Heap, h: Heap, p: int) {
    && p in g.arenas && h.arenas.Keys <= g.arenas.Keys && g.arenas.Keys <= h.arenas.Keys + {p}
    && h.pool == if p in h.arenas then g.pool else g.pool + Interval(p, p + Span(g.arenas[p]))
  }

  /** One block fewer in use; its pages are back in the pool exactly when that was its arena's last. */
  ghost predicate Returned(g: Heap, h: Heap, b: int) {
    && (forall c :: InUse(h, c) <==> InUse(g, c) && c != b)
    && Moved(g, h, PageOf(b))
    && (PageOf(b) !in h.arenas <==> forall c :: InUse(g, c) && PageOf(c) == PageOf(b) ==> c == b)
  }

  lemma ReturnedPage(g: Heap, h: Heap, total: set<int>, b: int)
    requires Good(h, total) && Moved(g, h, PageOf(b)) && forall c :: InUse(h, c) <==> InUse(g, c) && c != b
    ensures Returned(g, h, b)
  {
    if PageOf(b) in h.arenas {
      var c := ArenaBusy(h, total, PageOf(b));
    } else {
      forall c | InUse(g, c) && PageOf(c) == PageOf(b) ensures c == b {
        assert !InUse(h, c);
      }
    }
  }

  /** An arena with a block in use needs no exemption. */
  lemma Settled(h: Heap, total: set<int>, p: int)
    requires GoodBut(h, total, p) && p in h.arenas && Desc(h.arenas[p].desc)
    requires h.arenas[p].freeCnt < BlocksPer(h.arenas[p].desc)
    ensures Good(h, total)
  {
  }
}
