/** Sector allocation for inodes (pintos_pro3/src/filesys/inode.c, free-map.c) over the buffer
    cache. The free map is a set of free sectors; sector 0 is never free. */
module Volume {
  import opened BufferCache
  import opened IndexSector
  import opened InodeLayout
  import opened Lists
  import opened Machine
  import opened Sets

  lemma TakenFirst(free: set<int>)
    ensures Taken(free, free, [])
  {
    assert Elems([]) == {};
  }

  /** Filling the next unallocated entry of a table extends the list it represents. */
  lemma PadSet(ds: seq<int>, n: nat, s: int)
    requires |ds| < n
    ensures Pad(ds, n)[|ds| := s] == Pad(ds + [s], n)
  {
  }

  lemma PadJoin(ds: seq<int>, took: seq<int>, n: nat, s: int)
    requires |ds + took| < n
    ensures Pad(ds + took, n)[|ds + took| := s] == Pad(ds + (took + [s]), n)
  {
    PadSet(ds + took, n, s);
    assert ds + took + [s] == ds + (took + [s]);
  }

  /** A zeroed sector joins the table. */
  lemma FillStep(c0: seq<Block>, c1: seq<Block>, free0: set<int>, free1: set<int>, ds: seq<int>, took: seq<int>,
                 n: nat, s: int)
    requires |ds + took| < n && 0 <= s < |c1| && s in free1
    requires Taken(free0, free1, took) && Untouched(c0, c1, Elems(took)) && Zeroed(c1, took)
    ensures Pad(ds + took, n)[|ds + took| := s] == Pad(ds + (took + [s]), n)
    ensures Taken(free0, free1 - {s}, took + [s])
    ensures Untouched(c0, c1[s := Zeros()], Elems(took + [s])) && Zeroed(c1[s := Zeros()], took + [s])
  {
    PadJoin(ds, took, n, s);
    TakenOne(free0, free1, took, s);
    ElemsConcat(took, [s]);
    assert Elems([s]) == {s};
  }

  /** How many entries are missing to `num`. */
  function Lacking(num: int, have: int): int {
    if num > have then num - have else 0
  }

  /** No sector was left for an entry, and sector 0, the free map's own, was zeroed in its place. */
  ghost predicate Exhausted(c: seq<Block>, free: set<int>) {
    free == {} && |c| > 0 && c[0] == Zeros()
  }

  /** A table being filled to `want` more entries: zeroed free sectors have joined it while there were any. */
  ghost predicate Filled(c0: seq<Block>, free0: set<int>, c1: seq<Block>, free1: set<int>,
                         table: seq<int>, n: nat, ds: seq<int>, took: seq<int>, want: nat) {
    && |ds + took| <= n && table == Pad(ds + took, n) && |took| == Min(want, |free0|)
    && Taken(free0, free1, took) && Zeroed(c1, took)
    && if |took| == want then Untouched(c0, c1, Elems(took))
       else Untouched(c0, c1, Elems(took) + {0}) && Exhausted(c1, free1)
  }

  /** One more entry, with a free sector left. */
  lemma FilledMore(c0: seq<Block>, free0: set<int>, c1: seq<Block>, free1: set<int>, table: seq<int>, n: nat,
                   ds: seq<int>, took: seq<int>, want: nat, i: nat, s: int)
    requires Filled(c0, free0, c1, free1, table, n, ds, took, want) && i == |ds| + want < n
    requires 0 <= s < |c1| && s in free1
    ensures Filled(c0, free0, c1[s := Zeros()], free1 - {s}, table[i := s], n, ds, took + [s], want + 1)
  {
    TakenCard(free0, free1, took);
    FillStep(c0, c1, free0, free1, ds, took, n, s);
  }

  /** One more entry on a full volume: it stays 0. */
  lemma FilledShort(c0: seq<Block>, free0: set<int>, c1: seq<Block>, free1: set<int>, table: seq<int>, n: nat,
                    ds: seq<int>, took: seq<int>, want: nat, i: nat)
    requires Filled(c0, free0, c1, free1, table, n, ds, took, want) && i == |ds| + want < n && free1 == {}
    requires |c1| > 0 && forall x :: x in free0 ==> 0 < x < |c0|
    ensures Filled(c0, free0, c1[0 := Zeros()], {}, table[i := 0], n, ds, took, want + 1)
  {
    TakenCard(free0, free1, took);
    EntryIs(ds, took, n, i);
    ZeroApart(free0, free1, took, |c0|);
    assert table[i := 0] == table;
  }

  /** One more entry, whether or not a free sector was left. */
  lemma Joined(c0: seq<Block>, free0: set<int>, c1: seq<Block>, free1: set<int>, table: seq<int>, n: nat,
               ds: seq<int>, took: seq<int>, want: nat, i: nat, s: int) returns (took': seq<int>)
    requires Filled(c0, free0, c1, free1, table, n, ds, took, want) && i == |ds| + want < n
    requires 0 <= s < |c1| && (if free1 != {} then s in free1 else s == 0)
    requires forall x :: x in free0 ==> 0 < x < |c0|
    ensures Filled(c0, free0, c1[s := Zeros()], free1 - {s}, table[i := s], n, ds, took', want + 1)
  {
    if free1 != {} {
      took' := took + [s];
      FilledMore(c0, free0, c1, free1, table, n, ds, took, want, i, s);
    } else {
      took' := took;
      FilledShort(c0, free0, c1, free1, table, n, ds, took, want, i);
    }
  }

  /** One turn of the table loops. */
  lemma Entered(c0: seq<Block>, free0: set<int>, c1: seq<Block>, free1: set<int>, table: seq<int>, n: nat,
                ds: seq<int>, took: seq<int>, i: nat, next: nat, s: int, c2: seq<Block>, free2: set<int>)
      returns (took': seq<int>)
    requires Filled(c0, free0, c1, free1, table, n, ds, took, Lacking(i, |ds|)) && next == i + 1 && i < n
    requires forall x :: x in free0 ==> 0 < x < |c0|
    requires if i < |ds| then s == table[i] && c2 == c1 && free2 == free1
             else 0 <= s < |c1| && c2 == c1[s := Zeros()] && free2 == free1 - {s}
    requires i >= |ds| ==> s in free1 || (free1 == {} && s == 0)
    ensures Filled(c0, free0, c2, free2, table[i := s], n, ds, took', Lacking(next, |ds|))
  {
    if i >= |ds| {
      took' := Joined(c0, free0, c1, free1, table, n, ds, took, i - |ds|, i, s);
    } else {
      took' := took;
      assert table[i := s] == table;
    }
  }

  lemma EntryIs(ds: seq<int>, took: seq<int>, n: nat, i: nat)
    requires |ds + took| <= n && i < n && (i >= |ds| ==> |took| <= i - |ds|)
    ensures Pad(ds + took, n)[i] == if i < |ds| then ds[i] else 0
  {
  }

  lemma ZeroApart(free0: set<int>, free1: set<int>, took: seq<int>, n: int)
    requires Taken(free0, free1, took) && forall x :: x in free0 ==> 0 < x < n
    ensures forall k :: 0 <= k < |took| ==> took[k] != 0
  {
    forall k | 0 <= k < |took| ensures took[k] != 0 {
      var x := took[k];
      assert x in Elems(took);
    }
  }

  class Volume {
    const cache: Cache
    var free: set<int>

    ghost predicate Valid()
      reads this, cache, cache.entries
    {
      && cache.Valid() && |cache.image| <= B32
      && forall s :: s in free ==> 0 < s < |cache.image|
    }

    /** `free_map_init`: everything is free but sectors 0 (the free map) and 1 (the root directory). */
    constructor (device: seq<Block>)
      requires |device| <= B32
      ensures Valid() && cache.image == device && free == Interval(2, |device|)
      ensures fresh(cache) && fresh(cache.entries)
    {
      cache := new Cache(device);
      free := Interval(2, |device|);
    }

    /** `free_map_allocate` for one sector: the lowest free one. It fails exactly when none is free,
        and then leaves the caller's entry as it was. */
    method TakeSector(entry: int) returns (ok: bool, s: int)
      requires Valid()
      modifies this`free
      ensures Valid() && (ok <==> old(free) != {})
      ensures ok ==> s in old(free) && free == old(free) - {s} && forall q :: q in old(free) ==> s <= q
      ensures !ok ==> s == entry && free == old(free)
    {
      if free == {} {
        return false, entry;
      }
      ghost var some := Choose(free);
      s := 0;
      while s !in free
        invariant forall q :: q in free ==> s <= q
        decreases some - s
      {
        s := s + 1;
      }
      free := free - {s};
      ok := true;
    }

    /** `free_map_release` for one sector, whose assertion demands that the sector be in use. */
    method Release(s: int)
      requires Valid() && 0 < s < |cache.image| && s !in free
      modifies this`free
      ensures Valid() && free == old(free) + {s}
    {
      free := free + {s};
    }

    /** Take a sector for an unallocated entry and zero it. The result of the allocation is ignored:
        on a full volume the entry stays 0 and sector 0, the free map's own, is zeroed. */
    method TakeZeroed() returns (s: int)
      requires Valid() && |cache.image| > 0
      modifies this`free, cache, cache.entries
      ensures Valid() && 0 <= s < |old(cache.image)| && cache.image == old(cache.image)[s := Zeros()]
      ensures old(free) != {} ==> s in old(free) && free == old(free) - {s}
      ensures old(free) == {} ==> s == 0 && free == {}
    {
      var ok;
      ok, s := TakeSector(0);
      cache.Write(s, Zeros());
    }

    /** `inode_allocate_indirect` at level 0, also the body of the direct loop of `inode_allocate`. */
    method AllocateLeaf(entry: int) returns (s: int)
      requires Valid() && (entry == 0 ==> |cache.image| > 0)
      modifies this`free, cache, cache.entries
      ensures Valid()
      ensures entry != 0 ==> s == entry && free == old(free) && cache.image == old(cache.image)
      ensures entry == 0 ==> 0 <= s < |old(cache.image)| && cache.image == old(cache.image)[s := Zeros()]
      ensures entry == 0 && old(free) != {} ==> s in old(free) && free == old(free) - {s}
      ensures entry == 0 && old(free) == {} ==> s == 0 && free == {}
    {
      s := entry;
      if entry == 0 {
        s := TakeZeroed();
      }
    }

    /** The table loops: make the first `num` entries of a table of data sectors allocated, as far as
        the free sectors last. */
    method FillTable(table0: seq<int>, num: nat, ghost ds: seq<int>) returns (table: seq<int>, ghost took: seq<int>)
      requires Valid() && |cache.image| > 0 && |ds| <= |table0| && num <= |table0| && table0 == Pad(ds, |table0|)
      requires forall k :: 0 <= k < |ds| ==> ds[k] != 0
      modifies this`free, cache, cache.entries
      ensures Valid() && Filled(old(cache.image), old(free), cache.image, free, table, |table0|, ds, took,
                                Lacking(num, |ds|))
    {
      table, took := table0, [];
      TakenFirst(free);
      assert ds + took == ds;
      for i := 0 to num
        invariant Valid()
        invariant Filled(old(cache.image), old(free), cache.image, free, table, |table0|, ds, took, Lacking(i, |ds|))
      {
        ghost var free1, image1 := free, cache.image;
        EntryIs(ds, took, |table0|, i);
        var s := AllocateLeaf(table[i]);
        took := Entered(old(cache.image), old(free), image1, free1, table, |table0|, ds, took, i, i + 1, s,
                        cache.image, free);
        table := table[i := s];
      }
    }

    /** Read an index sector, taking and zeroing one first if the entry is unallocated; on a full volume
        that reads the zeroed sector 0. */
    method OpenIndex(entry: int, ghost ds: seq<int>) returns (e: int, table: seq<int>)
      requires Valid() && |cache.image| > 0 && IndexRep(cache.image, entry, ds) && entry !in free
      modifies this`free, cache, cache.entries
      ensures Valid() && table == Pad(ds, FAN) && Opened(old(cache.image), old(free), entry, e, cache.image, free)
    {
      e := entry;
      if entry == 0 {
        e := TakeZeroed();
        WordsZeros();
      }
      var block := cache.Read(e);
      table := Words(block);
    }

    /** `inode_allocate_indirect` at level 1: grow an index sector to at least `num` entries. With too
        few free sectors they are all used up and sector 0 is zeroed. */
    method AllocateIndex(entry: int, num: nat, ghost ds: seq<int>) returns (e: int, ghost nw: seq<int>)
      requires Valid() && |cache.image| > 0 && IndexRep(cache.image, entry, ds) && 0 < num <= FAN && entry !in free
      requires forall k :: 0 <= k < |ds| ==> 0 < ds[k] < |cache.image|
      modifies this`free, cache, cache.entries
      ensures Valid() && 0 <= e < |cache.image| == |old(cache.image)| && (entry != 0 ==> e == entry)
      ensures |old(free)| >= IndexNeed(entry, num, |ds|) ==>
        IndexGrown(old(cache.image), old(free), cache.image, free, entry, num, ds, e, nw)
      ensures |old(free)| < IndexNeed(entry, num, |ds|) ==>
        IndexShort(old(cache.image), old(free), cache.image, free, entry, e)
    {
      var table;
      e, table := OpenIndex(entry, ds);
      ghost var free1, image1 := free, cache.image;
      table, nw := FillTable(table, num, ds);
      ghost var image2 := cache.image;
      TableIsWords(ds, nw, free1, |image2|, FAN);
      cache.Write(e, Pack(table));
      if |old(free)| >= IndexNeed(entry, num, |ds|) {
        IndexEnough(old(cache.image), old(free), image1, free1, image2, free, entry, num, ds, e, nw, table);
      } else {
        IndexTooFew(old(cache.image), old(free), image1, free1, image2, free, entry, num, ds, e, nw, table);
      }
    }

    /** One turn of the second-level loop: grow group `a` to its share of `num`, if the free sectors
        last. */
    method GrowGroup(table0: seq<int>, a: nat, per: nat, num: nat, ghost growing: bool, ghost e: int,
                     ghost subs: seq<int>, ghost ds: seq<int>, ghost ns: seq<int>, ghost nd: seq<int>,
                     ghost free1: set<int>, ghost image1: seq<Block>)
        returns (table: seq<int>, ghost growing': bool, ghost ns': seq<int>, ghost nd': seq<int>)
      requires Valid() && |cache.image| > 0 && a < Groups(num) <= FAN && |subs| == Groups(|ds|) <= FAN
      requires per == Min(num - 128 * a, 128)
      requires growing ==> GroupsDone(image1, cache.image, free1, free, e, subs, ds, ns, nd, num, a, table0)
      requires !growing ==> Shortage(cache.image, free, table0, |subs|, a)
      modifies this`free, cache, cache.entries
      ensures Valid() && |cache.image| == |old(cache.image)|
      ensures growing' ==> GroupsDone(image1, cache.image, free1, free, e, subs, ds, ns', nd', num, a + 1, table)
      ensures !growing' ==> Shortage(cache.image, free, table, |subs|, a + 1)
      ensures if growing then growing' || |free1| < GroupsNeed(num, |ds|) else !growing' && table == table0
    {
      ghost var free2, image2, old_ := free, cache.image, if growing then OldGroup(ds + nd, a) else [];
      if growing {
        GrowingReady(image1, cache.image, free1, free, e, subs, ds, ns, nd, num, a);
      }
      ghost var nw;
      var s;
      s, nw := AllocateIndex(table0[a], per, old_);
      table, ns', nd' := table0[a := s], ns, nd;
      growing' := growing && |free2| >= IndexNeed(table0[a], per, |old_|);
      if growing' {
        ns', nd' := if a < |subs| then ns else ns + [s], nd + nw;
        GroupDone(image1, image2, cache.image, free1, free2, free, e, subs, ds, ns, nd, num, a, table0, s, nw);
      } else if growing {
        RanShort(image1, image2, cache.image, free1, free2, free, e, subs, ds, ns, nd, num, a, table0, s);
      }
    }

    /** The second-level loop. */
    method GrowGroups(table0: seq<int>, num: nat, ghost e: int, ghost subs: seq<int>, ghost ds: seq<int>)
        returns (table: seq<int>, ghost growing: bool, ghost ns: seq<int>, ghost nd: seq<int>)
      requires Valid() && |cache.image| > 0 && Groups(num) <= FAN && |subs| == Groups(|ds|) <= FAN
      requires table0 == Pad(subs, FAN)
      requires e != 0 ==> GroupsDone(cache.image, cache.image, free, free, e, subs, ds, [], [], num, 0, table0)
      requires e == 0 ==> Shortage(cache.image, free, table0, |subs|, 0)
      modifies this`free, cache, cache.entries
      ensures Valid() && |cache.image| == |old(cache.image)|
      ensures growing ==> GroupsDone(old(cache.image), cache.image, old(free), free, e, subs, ds, ns, nd, num,
                                     Groups(num), table)
      ensures !growing ==> Shortage(cache.image, free, table, |subs|, Groups(num))
      ensures if e != 0 then growing || |old(free)| < GroupsNeed(num, |ds|) else !growing && table == table0
    {
      table, growing, ns, nd := table0, e != 0, [], [];
      var left, l, a := num, Groups(num), 0;
      while a < l
        invariant Valid() && a <= l && left == num - Min(128 * a, num) && |cache.image| == |old(cache.image)|
        invariant growing ==> GroupsDone(old(cache.image), cache.image, old(free), free, e, subs, ds, ns, nd, num, a,
                                         table)
        invariant !growing ==> Shortage(cache.image, free, table, |subs|, a)
        invariant if e != 0 then growing || |old(free)| < GroupsNeed(num, |ds|) else !growing && table == table0
      {
        var per := Min(left, 128);
        table, growing, ns, nd :=
          GrowGroup(table, a, per, num, growing, e, subs, ds, ns, nd, old(free), old(cache.image));
        left := left - per;
        a := a + 1;
      }
    }

    /** `inode_allocate_indirect` at level 2: grow the index sector of index sectors to at least `num`
        data sectors. With too few free sectors they are all used up and sector 0 is zeroed. */
    method AllocateDouble(entry: int, num: nat, ghost subs: seq<int>, ghost ds: seq<int>)
        returns (e: int, ghost ns: seq<int>, ghost nd: seq<int>)
      requires Valid() && |cache.image| > 0 && DoubleRep(cache.image, entry, subs, ds) && 0 < num <= FAN * FAN
      requires entry !in free && Disjoint(cache.image, free, Entry01(entry) + subs + ds)
      modifies this`free, cache, cache.entries
      ensures Valid() && 0 <= e < |cache.image| == |old(cache.image)| && (entry != 0 ==> e == entry)
      ensures |old(free)| >= DoubleNeed(entry, num, |ds|) ==>
        DoubleGrown(old(cache.image), old(free), cache.image, free, entry, num, subs, ds, e, ns, nd)
      ensures |old(free)| < DoubleNeed(entry, num, |ds|) ==> Exhausted(cache.image, free)
    {
      var table;
      e, table := OpenIndex(entry, subs);
      ghost var free1, image1, growing := free, cache.image, false;
      DoubleOpened(old(cache.image), image1, old(free), free1, entry, e, subs, ds, num, table);
      table, growing, ns, nd := GrowGroups(table, num, e, subs, ds);
      ghost var image2 := cache.image;
      if growing {
        DoubleEnough(old(cache.image), image1, image2, old(free), free1, free, entry, e, subs, ds, ns, nd, num, table);
      } else {
        DoubleTooFew(old(cache.image), image1, image2, old(free), free1, free, entry, e, subs, ds, num, table);
      }
      cache.Write(e, Pack(table));
    }
  }

  /** An index sector is at hand: the entry's own, or a zeroed free one, or sector 0 zeroed. */
  ghost predicate Opened(c0: seq<Block>, free0: set<int>, entry: int, e: int, c1: seq<Block>, free1: set<int>) {
    && 0 <= e < |c0| && e !in free1 && (e == 0 <==> entry == 0 && free0 == {})
    && (if entry != 0 then e == entry && free1 == free0 && c1 == c0
        else c1 == c0[e := Zeros()] && free1 == free0 - {e} && (e in free0 || free0 == {}))
  }

  /** Sectors it takes to have at least `num` entries. */
  function IndexNeed(entry: int, num: nat, have: nat): int {
    Lacking(num, have) + if entry == 0 then 1 else 0
  }

  /** The table has grown: old entries kept, new ones zeroed free sectors, nothing else touched. */
  ghost predicate IndexGrown(c0: seq<Block>, free0: set<int>, c1: seq<Block>, free1: set<int>, entry: int, num: nat,
                             ds: seq<int>, e: int, nw: seq<int>) {
    && |nw| == Lacking(num, |ds|) && IndexRep(c1, e, ds + nw)
    && Taken(free0, free1, (if entry == 0 then [e] else []) + nw)
    && e !in nw && Zeroed(c1, nw) && Untouched(c0, c1, Elems(nw) + {e})
  }

  /** The free sectors did not last. */
  ghost predicate IndexShort(c0: seq<Block>, free0: set<int>, c1: seq<Block>, free1: set<int>, entry: int, e: int) {
    Exhausted(c1, free1) && Untouched(c0, c1, free0 + {e, 0}) && (entry == 0 && free0 == {} ==> e == 0)
  }

  lemma OpenedCard(c0: seq<Block>, free0: set<int>, entry: int, e: int, c1: seq<Block>, free1: set<int>)
    requires Opened(c0, free0, entry, e, c1, free1)
    ensures |free1| == if entry == 0 && free0 != {} then |free0| - 1 else |free0|
  {
  }

  lemma IndexEnough(c0: seq<Block>, free0: set<int>, c1: seq<Block>, free1: set<int>, c2: seq<Block>, free2: set<int>,
                    entry: int, num: nat, ds: seq<int>, e: int, nw: seq<int>, table: seq<int>)
    requires Opened(c0, free0, entry, e, c1, free1) && |free0| >= IndexNeed(entry, num, |ds|) && 0 < num <= FAN
    requires Filled(c1, free1, c2, free2, table, FAN, ds, nw, Lacking(num, |ds|)) && |c0| <= B32
    requires (forall k :: 0 <= k < |ds| ==> 0 < ds[k] < |c0|) && forall s :: s in free0 ==> 0 < s < |c0|
    requires AreWords(table) && e < |c2| && entry >= 0
    ensures IndexGrown(c0, free0, c2[e := Pack(table)], free2, entry, num, ds, e, nw)
  {
    OpenedCard(c0, free0, entry, e, c1, free1);
    TakenAfterIndex(free0, free1, free2, entry == 0, e, nw);
    IndexStored(c0, c1, c2, e, ds, nw, free1);
  }

  lemma IndexTooFew(c0: seq<Block>, free0: set<int>, c1: seq<Block>, free1: set<int>, c2: seq<Block>, free2: set<int>,
                    entry: int, num: nat, ds: seq<int>, e: int, nw: seq<int>, table: seq<int>)
    requires Opened(c0, free0, entry, e, c1, free1) && |free0| < IndexNeed(entry, num, |ds|) && 0 < num <= FAN
    requires Filled(c1, free1, c2, free2, table, FAN, ds, nw, Lacking(num, |ds|))
    requires forall s :: s in free0 ==> 0 < s < |c0|
    requires AreWords(table) && e < |c2| && IndexRep(c0, entry, ds)
    ensures IndexShort(c0, free0, c2[e := Pack(table)], free2, entry, e)
  {
    OpenedCard(c0, free0, entry, e, c1, free1);
    assert Elems(nw) <= free1 <= free0;
    if e == 0 {
      assert ds + nw == [];
      PackZeros(table);
    }
  }

  lemma PackZeros(table: seq<int>)
    requires table == Pad([], FAN)
    ensures AreWords(table) && Pack(table) == Zeros()
  {
  }

  /** Storing a grown table in its index sector. */
  lemma IndexStored(c0: seq<Block>, c1: seq<Block>, c2: seq<Block>, e: int, ds: seq<int>, nw: seq<int>, free: set<int>)
    requires 0 < e < |c2| && e !in free && |c2| <= B32 && (c1 == c0 || (e < |c0| && c1 == c0[e := Zeros()]))
    requires 0 < |ds + nw| <= FAN && Elems(nw) <= free
    requires (forall k :: 0 <= k < |ds| ==> 0 < ds[k] < |c2|) && forall s :: s in free ==> 0 < s < |c2|
    requires Untouched(c1, c2, Elems(nw)) && Zeroed(c2, nw)
    ensures AreWords(Pad(ds + nw, FAN))
    ensures var c3 := c2[e := Pack(Pad(ds + nw, FAN))];
            IndexRep(c3, e, ds + nw) && Zeroed(c3, nw) && Untouched(c0, c3, Elems(nw) + {e})
    ensures e !in nw
  {
    TableIsWords(ds, nw, free, |c2|, FAN);
    WordsPack(Pad(ds + nw, FAN));
    assert e !in Elems(nw);
  }

  lemma TakenAfterIndex(free0: set<int>, free1: set<int>, free2: set<int>, isNew: bool, e: int, nw: seq<int>)
    requires Taken(free1, free2, nw)
    requires if isNew then e in free0 && free1 == free0 - {e} else free1 == free0
    ensures Taken(free0, free2, (if isNew then [e] else []) + nw)
  {
    TakenFirst(free0);
    if isNew {
      TakenOne(free0, free0, [], e);
      assert [] + [e] == [e];
      TakenTrans(free0, free1, free2, [e], nw);
    } else {
      assert [] + nw == nw;
    }
  }

  lemma TableIsWords(ds: seq<int>, nw: seq<int>, free: set<int>, n: int, size: nat)
    requires |ds + nw| <= size && Elems(nw) <= free && n <= B32
    requires (forall k :: 0 <= k < |ds| ==> 0 < ds[k] < n) && forall s :: s in free ==> 0 < s < n
    ensures AreWords(Pad(ds + nw, size)) && forall k :: 0 <= k < |nw| ==> 0 < nw[k] < n
  {
    forall k | 0 <= k < |nw| ensures 0 < nw[k] < n {
      var s := nw[k];
      assert s in Elems(nw);
    }
  }

  // ----- growing the second level -----

  /** State of the second-level loop before iteration `a`: groups below `a` have their final size. */
  ghost predicate GroupsGrown(c: seq<Block>, subs: seq<int>, ds: seq<int>, ns: seq<int>, nd: seq<int>, num: nat,
                              a: nat) {
    && a <= Groups(num)
    && |ns| == Lacking(a, |subs|)
    && |nd| == Lacking(Min(128 * a, num), |ds|)
    && GroupsRep(c, subs + ns, ds + nd)
  }

  /** The list of sectors in group `a` before it is grown. */
  function OldGroup(cur: seq<int>, a: nat): seq<int> {
    if 128 * a < |cur| then Group(cur, a) else []
  }

  lemma GroupAppend(cur: seq<int>, nw: seq<int>, a: nat, per: nat)
    requires |OldGroup(cur, a)| + |nw| == per && 0 < per <= 128 && 128 * a <= |cur|
    requires nw != [] ==> |cur| < 128 * a + 128
    ensures 128 * a <= |cur + nw| && Group(cur + nw, a) == OldGroup(cur, a) + nw
    ensures forall b :: 0 <= b && 128 * b < |cur| && b != a ==> Group(cur + nw, b) == Group(cur, b)
  {
    if nw == [] {
      assert cur + nw == cur;
    }
  }

  /** One iteration of the second-level loop, seen on the lists. */
  lemma GroupStep(c0: seq<Block>, c1: seq<Block>, subs: seq<int>, ds: seq<int>, ns: seq<int>, nd: seq<int>,
                  num: nat, a: nat, s: int, nw: seq<int>)
    requires GroupsGrown(c0, subs, ds, ns, nd, num, a) && a < Groups(num) && |subs| == Groups(|ds|)
    requires |nw| == Lacking(Min(128, num - 128 * a), |OldGroup(ds + nd, a)|)
    requires IndexRep(c1, s, OldGroup(ds + nd, a) + nw)
    requires a < |subs| ==> s == subs[a]
    requires Untouched(c0, c1, Elems(nw) + {s})
    requires Distinct(subs + ns) && (forall b :: 0 <= b < |subs + ns| ==> (subs + ns)[b] !in nw)
    requires a >= |subs| ==> s !in subs + ns
    ensures GroupsGrown(c1, subs, ds, if a < |subs| then ns else ns + [s], nd + nw, num, a + 1)
  {
    var cur, curSubs := ds + nd, subs + ns;
    GroupAppend(cur, nw, a, |OldGroup(cur, a)| + |nw|);
    var ns' := if a < |subs| then ns else ns + [s];
    assert ds + (nd + nw) == cur + nw;
    assert subs + ns' == if a < |subs| then curSubs else curSubs + [s];
    forall b | 0 <= b < |subs + ns'| ensures IndexRep(c1, (subs + ns')[b], Group(cur + nw, b)) {
      if b != a {
        assert IndexRep(c0, curSubs[b], Group(cur, b));
        assert curSubs[b] != s;
        OtherGroupKept(c0, c1, curSubs[b], Group(cur, b), s, nw);
      }
    }
  }

  lemma OtherGroupKept(c0: seq<Block>, c1: seq<Block>, entry: int, ds: seq<int>, s: int, nw: seq<int>)
    requires IndexRep(c0, entry, ds) && Untouched(c0, c1, Elems(nw) + {s}) && entry != s && entry !in nw
    ensures IndexRep(c1, entry, ds)
  {
  }

  /** Everything the growing tree touches stays distinct, on the device and out of the free map. */
  lemma TreeDisjoint(c: seq<Block>, free0: set<int>, free1: set<int>, e: int, subs: seq<int>, ds: seq<int>,
                     ns: seq<int>, nd: seq<int>)
    requires Disjoint(c, free0, [e] + subs + ds) && Taken(free0, free1, ns + nd)
    requires forall s :: s in free0 ==> 0 < s < |c|
    ensures Disjoint(c, free1, [e] + (subs + ns) + (ds + nd))
  {
    DisjointGrows(c, free0, free1, [e] + subs + ds, ns + nd);
    DisjointRearranged(c, free1, [e] + subs + ds + (ns + nd), [e] + (subs + ns) + (ds + nd));
  }

  lemma TreeParts(c: seq<Block>, free: set<int>, e: int, subs: seq<int>, ds: seq<int>)
    requires Disjoint(c, free, [e] + subs + ds)
    ensures 0 < e < |c| && e !in free && e !in subs && e !in ds
    ensures Disjoint(c, free, subs) && Disjoint(c, free, ds) && Elems(subs) !! Elems(ds)
  {
    DisjointParts(c, free, [e] + subs, ds);
    DisjointParts(c, free, [e], subs);
    assert ([e] + subs + ds)[0] == e;
    assert e in Elems([e]) && e in Elems([e] + subs);
    assert forall x :: x in subs ==> x in Elems([e] + subs);
  }

  lemma GroupRange(cur: seq<int>, a: nat, n: int)
    requires forall k :: 0 <= k < |cur| ==> 0 < cur[k] < n
    ensures forall k :: 0 <= k < |OldGroup(cur, a)| ==> 0 < OldGroup(cur, a)[k] < n
  {
  }

  /** The sectors one iteration takes join those taken before. */
  lemma TakenStep(free1: set<int>, free2: set<int>, free3: set<int>, ns: seq<int>, nd: seq<int>, isNew: bool, s: int,
                  nw: seq<int>)
    requires Taken(free1, free2, ns + nd) && Taken(free2, free3, (if isNew then [s] else []) + nw)
    ensures Taken(free1, free3, (if isNew then ns + [s] else ns) + (nd + nw))
  {
    var more := (if isNew then [s] else []) + nw;
    TakenTrans(free1, free2, free3, ns + nd, more);
    TakenRearranged(free1, free3, ns + nd + more, (if isNew then ns + [s] else ns) + (nd + nw));
  }

  /** The second-level loop: `c1`, `free1` before it, `c`, `free` now. */
  ghost predicate Growing(c1: seq<Block>, c: seq<Block>, free1: set<int>, free: set<int>,
                          subs: seq<int>, ds: seq<int>, ns: seq<int>, nd: seq<int>, num: nat, a: nat) {
    && GroupsGrown(c, subs, ds, ns, nd, num, a)
    && Taken(free1, free, ns + nd)
    && Untouched(c1, c, Elems(subs + ns) + Elems(nd))
    && Zeroed(c, nd)
  }

  /** Enough sectors are left for group `a`. */
  lemma RoomInGroup(ds: seq<int>, nd: seq<int>, num: nat, a: nat, free1: nat, free: nat)
    requires |nd| == Lacking(Min(128 * a, num), |ds|) && a < Groups(num)
    requires free1 >= GroupsNeed(num, |ds|) && free == free1 - Lacking(a, Groups(|ds|)) - |nd|
    ensures free >= Lacking(Min(128, num - 128 * a), |OldGroup(ds + nd, a)|) + if a >= Groups(|ds|) then 1 else 0
  {
    OldGroupSize(ds + nd, a);
  }

  lemma OldGroupSize(cur: seq<int>, a: nat)
    ensures |OldGroup(cur, a)| == if 128 * a < |cur| then Min(128, |cur| - 128 * a) else 0
  {
  }

  /** What the loop body may rely on when it grows group `a`. */
  lemma GrowingReady(c1: seq<Block>, c: seq<Block>, free1: set<int>, free: set<int>, e: int,
                     subs: seq<int>, ds: seq<int>, ns: seq<int>, nd: seq<int>, num: nat, a: nat)
    requires Growing(c1, c, free1, free, subs, ds, ns, nd, num, a) && a < Groups(num) <= FAN
    requires |subs| == Groups(|ds|) <= FAN
    requires Disjoint(c1, free1, [e] + subs + ds) && forall s :: s in free1 ==> 0 < s < |c1|
    ensures |subs + ns| <= FAN
    ensures var entry, old_, per := Pad(subs + ns, FAN)[a], OldGroup(ds + nd, a), Min(128, num - 128 * a);
            && (entry == 0 <==> a >= |subs|) && (entry != 0 ==> entry == subs[a])
            && IndexRep(c, entry, old_) && per > 0
            && (entry != 0 ==> entry !in free)
            && (forall k :: 0 <= k < |old_| ==> 0 < old_[k] < |c|)
            && (|free1| >= GroupsNeed(num, |ds|) ==> |free| >= IndexNeed(entry, per, |old_|))
    ensures Disjoint(c, free, [e] + (subs + ns) + (ds + nd))
  {
    TreeDisjoint(c1, free1, free, e, subs, ds, ns, nd);
    TreeParts(c1, free, e, subs + ns, ds + nd);
    TakenCard(free1, free, ns + nd);
    GroupRange(ds + nd, a, |c|);
    if |free1| >= GroupsNeed(num, |ds|) {
      RoomInGroup(ds, nd, num, a, |free1|, |free|);
    }
    if a < |subs| {
      assert (subs + ns)[a] == subs[a];
      assert IndexRep(c, (subs + ns)[a], Group(ds + nd, a));
    }
  }

  /** Sectors the second level lacks. */
  function GroupsNeed(num: nat, have: nat): int {
    Lacking(num, have) + Lacking(Groups(num), Groups(have))
  }

  /** The second-level loop with its table, while the free sectors last. */
  ghost predicate GroupsDone(c1: seq<Block>, c: seq<Block>, free1: set<int>, free: set<int>, e: int, subs: seq<int>,
                             ds: seq<int>, ns: seq<int>, nd: seq<int>, num: nat, a: nat, table: seq<int>) {
    && Growing(c1, c, free1, free, subs, ds, ns, nd, num, a)
    && |subs + ns| <= FAN && table == Pad(subs + ns, FAN)
    && Disjoint(c1, free1, [e] + subs + ds) && (forall s :: s in free1 ==> 0 < s < |c1|)
  }

  /** The free sectors have run out, in a group behind the `have` old ones or in the last of them. */
  ghost predicate Shortage(c: seq<Block>, free: set<int>, table: seq<int>, have: nat, a: nat) {
    && Exhausted(c, free) && have <= a && |table| == FAN && AreWords(table)
    && forall b :: a <= b < FAN ==> table[b] == 0
  }

  /** Group `a` has grown. */
  lemma GroupDone(c1: seq<Block>, c2: seq<Block>, c3: seq<Block>, free1: set<int>, free2: set<int>, free3: set<int>,
                  e: int, subs: seq<int>, ds: seq<int>, ns: seq<int>, nd: seq<int>, num: nat, a: nat,
                  table: seq<int>, s: int, nw: seq<int>)
    requires GroupsDone(c1, c2, free1, free2, e, subs, ds, ns, nd, num, a, table)
    requires a < Groups(num) <= FAN && |subs| == Groups(|ds|) <= FAN && (table[a] != 0 ==> s == table[a])
    requires IndexGrown(c2, free2, c3, free3, table[a], Min(128, num - 128 * a), OldGroup(ds + nd, a), s, nw)
    ensures GroupsDone(c1, c3, free1, free3, e, subs, ds, if a < |subs| then ns else ns + [s], nd + nw, num, a + 1,
                       table[a := s])
  {
    GrowingReady(c1, c2, free1, free2, e, subs, ds, ns, nd, num, a);
    GrowingStep(c1, c2, c3, free1, free2, free3, e, subs, ds, ns, nd, num, a, s, nw);
    if a >= |subs| {
      PadJoin(subs, ns, FAN, s);
    } else {
      assert table[a := s] == table;
    }
  }

  /** The free sectors did not last for group `a`, which therefore is the last one or a new one. */
  lemma RanShort(c1: seq<Block>, c2: seq<Block>, c3: seq<Block>, free1: set<int>, free2: set<int>, free3: set<int>,
                 e: int, subs: seq<int>, ds: seq<int>, ns: seq<int>, nd: seq<int>, num: nat, a: nat,
                 table: seq<int>, s: int)
    requires GroupsDone(c1, c2, free1, free2, e, subs, ds, ns, nd, num, a, table)
    requires a < Groups(num) <= FAN && |subs| == Groups(|ds|) <= FAN && (table[a] != 0 ==> s == table[a])
    requires |free2| < IndexNeed(table[a], Min(128, num - 128 * a), |OldGroup(ds + nd, a)|)
    requires Exhausted(c3, free3) && 0 <= s < |c1| <= B32
    ensures Shortage(c3, free3, table[a := s], |subs|, a + 1) && |free1| < GroupsNeed(num, |ds|)
  {
    GrowingReady(c1, c2, free1, free2, e, subs, ds, ns, nd, num, a);
    OldGroupSize(ds + nd, a);
    TreeDisjoint(c1, free1, free2, e, subs, ds, ns, nd);
    TreeParts(c1, free2, e, subs + ns, ds + nd);
    TableIsWords(subs + ns, [], {}, |c1|, FAN);
    assert subs + ns + [] == subs + ns;
    RestIsZero(subs + ns, a, s);
  }

  lemma RestIsZero(ds: seq<int>, a: nat, s: int)
    requires |ds| <= a + 1 <= FAN && AreWords(Pad(ds, FAN)) && 0 <= s < B32
    ensures var table := Pad(ds, FAN)[a := s];
            AreWords(table) && forall b :: a + 1 <= b < FAN ==> table[b] == 0
  {
  }

  lemma GrowingStep(c1: seq<Block>, c2: seq<Block>, c3: seq<Block>, free1: set<int>, free2: set<int>, free3: set<int>,
                    e: int,
                    subs: seq<int>, ds: seq<int>, ns: seq<int>, nd: seq<int>, num: nat, a: nat, s: int, nw: seq<int>)
    requires Growing(c1, c2, free1, free2, subs, ds, ns, nd, num, a) && a < Groups(num)
    requires |subs| == Groups(|ds|)
    requires Disjoint(c2, free2, [e] + (subs + ns) + (ds + nd))
    requires |nw| == Lacking(Min(128, num - 128 * a), |OldGroup(ds + nd, a)|)
    requires IndexRep(c3, s, OldGroup(ds + nd, a) + nw)
    requires a < |subs| ==> s == subs[a]
    requires Taken(free2, free3, (if a < |subs| then [] else [s]) + nw)
    requires s !in nw && Zeroed(c3, nw) && Untouched(c2, c3, Elems(nw) + {s})
    ensures Growing(c1, c3, free1, free3, subs, ds, if a < |subs| then ns else ns + [s], nd + nw, num, a + 1)
  {
    TreeParts(c2, free2, e, subs + ns, ds + nd);
    assert Elems(nw) <= free2;
    forall b | 0 <= b < |subs + ns| ensures (subs + ns)[b] !in nw {
      assert (subs + ns)[b] !in free2;
    }
    if a >= |subs| {
      assert s in Elems([s] + nw);
    }
    GroupStep(c2, c3, subs, ds, ns, nd, num, a, s, nw);
    TakenStep(free1, free2, free3, ns, nd, a >= |subs|, s, nw);
    GrownZeroed(c2, c3, free2, subs + ns, ds, nd, nw, s);
    if a < |subs| {
      assert s in Elems(subs + ns);
    }
  }

  /** Freshly zeroed data sectors are not overwritten by later index updates. */
  lemma GrownZeroed(c2: seq<Block>, c3: seq<Block>, free2: set<int>, curSubs: seq<int>, ds: seq<int>, nd: seq<int>,
                    nw: seq<int>, s: int)
    requires Zeroed(c2, nd) && Zeroed(c3, nw) && Untouched(c2, c3, Elems(nw) + {s}) && Elems(nw) <= free2
    requires Disjoint(c2, free2, ds + nd) && Elems(curSubs) !! Elems(ds + nd) && (s in curSubs || s in free2)
    ensures Zeroed(c3, nd + nw)
  {
    forall k | 0 <= k < |nd| ensures c3[nd[k]] == Zeros() {
      assert (ds + nd)[|ds| + k] == nd[k];
      var x := nd[k];
      assert x in Elems(ds + nd) && x !in free2;
    }
  }

  lemma DoubleOpened(c0: seq<Block>, c1: seq<Block>, free0: set<int>, free1: set<int>, entry: int, e: int,
                     subs: seq<int>, ds: seq<int>, num: nat, table: seq<int>)
    requires DoubleRep(c0, entry, subs, ds) && Disjoint(c0, free0, Entry01(entry) + subs + ds)
    requires forall s :: s in free0 ==> 0 < s < |c0|
    requires Opened(c0, free0, entry, e, c1, free1) && table == Pad(subs, FAN)
    ensures e != 0 ==> GroupsDone(c1, c1, free1, free1, e, subs, ds, [], [], num, 0, table)
    ensures e == 0 ==> Shortage(c1, free1, table, |subs|, 0)
  {
    if e != 0 {
      TreeOpened(c0, c1, free0, free1, entry, e, subs, ds);
      assert subs + [] == subs && ds + [] == ds;
      TakenFirst(free1);
      var none: seq<int> := [];
      assert none + none == none;
    }
  }

  lemma TreeOpened(c0: seq<Block>, c1: seq<Block>, free0: set<int>, free1: set<int>, entry: int, e: int,
                   subs: seq<int>, ds: seq<int>)
    requires DoubleRep(c0, entry, subs, ds) && Disjoint(c0, free0, Entry01(entry) + subs + ds)
    requires forall s :: s in free0 ==> 0 < s < |c0|
    requires Opened(c0, free0, entry, e, c1, free1) && e != 0
    ensures Disjoint(c1, free1, [e] + subs + ds) && GroupsRep(c1, subs, ds)
  {
    if entry == 0 {
      TakenFirst(free0);
      TakenOne(free0, free0, [], e);
      assert [] + [e] == [e];
      DisjointGrows(c0, free0, free1, [] + subs + ds, [e]);
      DisjointRearranged(c0, free1, [] + subs + ds + [e], [e] + subs + ds);
    }
    TreeParts(c1, free1, e, subs, ds);
    forall a | 0 <= a < |subs| ensures IndexRep(c1, subs[a], Group(ds, a)) {
      assert subs[a] != e;
      assert IndexRep(c0, subs[a], Group(ds, a));
    }
  }

  /** Sectors it takes to have at least `num` data sectors in the tree. */
  function DoubleNeed(entry: int, num: nat, have: nat): int {
    GroupsNeed(num, have) + if entry == 0 then 1 else 0
  }

  /** The tree has grown: old entries kept, new ones zeroed free sectors, nothing else touched. */
  ghost predicate DoubleGrown(c0: seq<Block>, free0: set<int>, c1: seq<Block>, free1: set<int>, entry: int, num: nat,
                              subs: seq<int>, ds: seq<int>, e: int, ns: seq<int>, nd: seq<int>) {
    && |nd| == Lacking(num, |ds|) && DoubleRep(c1, e, subs + ns, ds + nd)
    && Taken(free0, free1, (if entry == 0 then [e] else []) + (ns + nd))
    && Zeroed(c1, nd) && Untouched(c0, c1, Elems(subs + ns) + Elems(nd) + {e})
  }

  /** The loop has grown every group and the table is stored. */
  lemma DoubleEnough(c0: seq<Block>, c1: seq<Block>, c2: seq<Block>, free0: set<int>, free1: set<int>, free2: set<int>,
                     entry: int, e: int, subs: seq<int>, ds: seq<int>, ns: seq<int>, nd: seq<int>, num: nat,
                     table: seq<int>)
    requires GroupsDone(c1, c2, free1, free2, e, subs, ds, ns, nd, num, Groups(num), table) && 0 < num <= FAN * FAN
    requires |ds| <= FAN * FAN && |subs| == Groups(|ds|) && |c1| <= B32 && e != 0
    requires Opened(c0, free0, entry, e, c1, free1)
    ensures AreWords(table) && e < |c2| && |free0| >= DoubleNeed(entry, num, |ds|)
    ensures DoubleGrown(c0, free0, c2[e := Pack(table)], free2, entry, num, subs, ds, e, ns, nd)
  {
    DoubleStored(c0, c1, c2, free1, free2, e, subs, ds, ns, nd, num);
    TakenAfterIndex(free0, free1, free2, entry == 0, e, ns + nd);
    TakenCard(free1, free2, ns + nd);
    OpenedCard(c0, free0, entry, e, c1, free1);
  }

  lemma DoubleTooFew(c0: seq<Block>, c1: seq<Block>, c2: seq<Block>, free0: set<int>, free1: set<int>, free2: set<int>,
                     entry: int, e: int, subs: seq<int>, ds: seq<int>, num: nat, table: seq<int>)
    requires Opened(c0, free0, entry, e, c1, free1) && IndexRep(c0, entry, subs) && e < |c2|
    requires Shortage(c2, free2, table, |subs|, Groups(num))
    requires if e != 0 then |free1| < GroupsNeed(num, |ds|) else table == Pad(subs, FAN)
    ensures Exhausted(c2[e := Pack(table)], free2) && |free0| < DoubleNeed(entry, num, |ds|)
  {
    OpenedCard(c0, free0, entry, e, c1, free1);
    if e == 0 {
      PackZeros(table);
    }
  }

  /** Storing the table of index sectors completes the tree. */
  lemma DoubleStored(c0: seq<Block>, c1: seq<Block>, c2: seq<Block>, free1: set<int>, free2: set<int>, e: int,
                     subs: seq<int>, ds: seq<int>, ns: seq<int>, nd: seq<int>, num: nat)
    requires Growing(c1, c2, free1, free2, subs, ds, ns, nd, num, Groups(num)) && 0 < num <= FAN * FAN
    requires |ds| <= FAN * FAN && |subs| == Groups(|ds|) && Disjoint(c1, free1, [e] + subs + ds) && |c1| <= B32
    requires forall s :: s in free1 ==> 0 < s < |c1|
    requires c1 == c0 || (0 <= e < |c0| && c1 == c0[e := Zeros()])
    ensures |subs + ns| <= FAN && AreWords(Pad(subs + ns, FAN)) && 0 < e < |c2|
    ensures var c3 := c2[e := Pack(Pad(subs + ns, FAN))];
            && DoubleRep(c3, e, subs + ns, ds + nd) && Zeroed(c3, nd)
            && Untouched(c0, c3, Elems(subs + ns) + Elems(nd) + {e})
  {
    TreeDisjoint(c1, free1, free2, e, subs, ds, ns, nd);
    TreeParts(c1, free2, e, subs + ns, ds + nd);
    var all := subs + ns;
    assert Elems(ns + nd) <= free1;
    TableIsWords(all, [], {}, |c1|, FAN);
    assert all + [] == all;
    WordsPack(Pad(all, FAN));
    var c3 := c2[e := Pack(Pad(all, FAN))];
    forall a | 0 <= a < |all| ensures IndexRep(c3, all[a], Group(ds + nd, a)) {
      assert IndexRep(c2, all[a], Group(ds + nd, a));
      assert all[a] != e;
    }
    forall k | 0 <= k < |nd| ensures c3[nd[k]] == Zeros() {
      assert (ds + nd)[|ds| + k] == nd[k];
    }
  }
}
