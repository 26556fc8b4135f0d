/** The 64-entry write-back buffer cache with clock replacement (pintos_pro3/src/filesys/cache.c):
    cache plus disk behave as the plain disk. */
module BufferCache {
  import opened Machine

  const CACHE_SIZE := 64

  type Block = b: seq<Byte> | |b| == 512 witness seq(512, _ => 0)

  datatype Entry = Entry(valid: bool, sector: nat, buffer: Block, dirty: bool, access: bool)

  // ----- coherence of the entries with the disk and with the abstract disk -----

  ghost predicate Caches(es: seq<Entry>, i: int, s: int) {
    0 <= i < |es| && es[i].valid && es[i].sector == s
  }

  ghost predicate Cached(es: seq<Entry>, s: int) {
    exists i :: Caches(es, i, s)
  }

  /** `image` is the disk as its users see it: at most one valid entry per sector, cached sectors
      show their buffer, the others show the disk, and clean buffers equal the disk. */
  ghost predicate Coherent(es: seq<Entry>, disk: seq<Block>, image: seq<Block>) {
    && |es| == CACHE_SIZE && |image| == |disk|
    && (forall i, j, s :: Caches(es, i, s) && Caches(es, j, s) ==> i == j)
    && (forall i, s :: Caches(es, i, s) ==>
          s < |disk| && image[s] == es[i].buffer && (!es[i].dirty ==> disk[s] == es[i].buffer))
    && (forall s :: 0 <= s < |disk| ==> CachedOrSame(es, disk, image, s))
  }

  ghost predicate CachedOrSame(es: seq<Entry>, disk: seq<Block>, image: seq<Block>, s: nat)
    requires s < |disk| && s < |image|
  {
    Cached(es, s) || image[s] == disk[s]
  }

  lemma SameCaching(es: seq<Entry>, fs: seq<Entry>)
    requires |es| == |fs|
    requires forall i :: 0 <= i < |es| ==> es[i].valid == fs[i].valid && es[i].sector == fs[i].sector
    ensures forall i, s :: Caches(es, i, s) <==> Caches(fs, i, s)
    ensures forall s :: Cached(es, s) <==> Cached(fs, s)
  {
    forall s ensures Cached(es, s) <==> Cached(fs, s) {
      if Cached(es, s) {
        var i :| Caches(es, i, s);
        assert Caches(fs, i, s);
      }
      if Cached(fs, s) {
        var i :| Caches(fs, i, s);
        assert Caches(es, i, s);
      }
    }
  }

  lemma SetAccess(es: seq<Entry>, disk: seq<Block>, image: seq<Block>, i: nat, bit: bool)
    requires Coherent(es, disk, image) && i < CACHE_SIZE
    ensures Coherent(es[i := es[i].(access := bit)], disk, image)
  {
    var fs := es[i := es[i].(access := bit)];
    SameCaching(es, fs);
    forall s | 0 <= s < |disk| ensures CachedOrSame(fs, disk, image, s) {
      assert CachedOrSame(es, disk, image, s);
    }
  }

  lemma Flushed(es: seq<Entry>, disk: seq<Block>, image: seq<Block>, i: nat)
    requires Coherent(es, disk, image) && i < CACHE_SIZE && es[i].valid
    ensures es[i].sector < |disk|
    ensures Coherent(es[i := es[i].(dirty := false)], disk[es[i].sector := es[i].buffer], image)
  {
    assert Caches(es, i, es[i].sector);
    var fs, disk' := es[i := es[i].(dirty := false)], disk[es[i].sector := es[i].buffer];
    SameCaching(es, fs);
    forall s | 0 <= s < |disk| ensures CachedOrSame(fs, disk', image, s) {
      assert CachedOrSame(es, disk, image, s);
    }
  }

  lemma Dropped(es: seq<Entry>, disk: seq<Block>, image: seq<Block>, i: nat)
    requires Coherent(es, disk, image) && i < CACHE_SIZE && es[i].valid && !es[i].dirty
    ensures Coherent(es[i := es[i].(valid := false)], disk, image)
  {
    var fs := es[i := es[i].(valid := false)];
    assert Caches(es, i, es[i].sector);
    assert forall j, s :: Caches(fs, j, s) ==> Caches(es, j, s);
    forall s | 0 <= s < |disk| ensures CachedOrSame(fs, disk, image, s) {
      assert CachedOrSame(es, disk, image, s);
      if s != es[i].sector && Cached(es, s) {
        var j :| Caches(es, j, s);
        assert Caches(fs, j, s);
      }
    }
  }

  lemma Loaded(es: seq<Entry>, disk: seq<Block>, image: seq<Block>, i: nat, sector: nat)
    requires Coherent(es, disk, image) && i < CACHE_SIZE && !es[i].valid
    requires sector < |disk| && !Cached(es, sector)
    ensures Coherent(es[i := Entry(true, sector, disk[sector], false, true)], disk, image)
  {
    var fs := es[i := Entry(true, sector, disk[sector], false, true)];
    assert forall j, s :: Caches(fs, j, s) <==> (j == i && s == sector) || (j != i && Caches(es, j, s));
    assert !Caches(es, i, es[i].sector);
    assert CachedOrSame(es, disk, image, sector);
    forall s | 0 <= s < |disk| ensures CachedOrSame(fs, disk, image, s) {
      assert CachedOrSame(es, disk, image, s);
      if Cached(es, s) {
        var j :| Caches(es, j, s);
        assert Caches(fs, j, s);
      }
    }
  }

  lemma Written(es: seq<Entry>, disk: seq<Block>, image: seq<Block>, i: nat, source: Block)
    requires Coherent(es, disk, image) && i < CACHE_SIZE && es[i].valid
    ensures es[i].sector < |image|
    ensures Coherent(es[i := es[i].(buffer := source, dirty := true, access := true)], disk,
                     image[es[i].sector := source])
  {
    var fs := es[i := es[i].(buffer := source, dirty := true, access := true)];
    SameCaching(es, fs);
    assert Caches(es, i, es[i].sector);
    var image' := image[es[i].sector := source];
    forall s | 0 <= s < |disk| ensures CachedOrSame(fs, disk, image', s) {
      assert CachedOrSame(es, disk, image, s);
      if s == es[i].sector {
        assert Caches(fs, i, s);
      }
    }
  }

  // ----- the clock -----

  /** The entry at distance `d` from the hand. */
  function Slot(hand: nat, d: nat): nat {
    if hand + d >= CACHE_SIZE then hand + d - CACHE_SIZE else hand + d
  }

  /** The replacement search passes an entry that is valid and recently accessed. */
  predicate Spared(e: Entry) {
    e.valid && e.access
  }

  /** The entries after the hand has swept over the first `d` of them. */
  function Swept(es: seq<Entry>, hand: nat, d: nat): (fs: seq<Entry>)
    requires |es| == CACHE_SIZE && hand < CACHE_SIZE && d <= CACHE_SIZE
    ensures |fs| == CACHE_SIZE
  {
    if d == 0 then es
    else
      var fs := Swept(es, hand, d - 1);
      fs[Slot(hand, d - 1) := fs[Slot(hand, d - 1)].(access := false)]
  }

  /** Exactly the first `d` entries from the hand have lost their access bit. */
  lemma {:induction false} SweptIs(es: seq<Entry>, hand: nat, d: nat)
    requires |es| == CACHE_SIZE && hand < CACHE_SIZE && d <= CACHE_SIZE
    ensures forall i :: 0 <= i < CACHE_SIZE ==>
      Swept(es, hand, d)[i]
      == es[i].(access := es[i].access && d <= if i >= hand then i - hand else i - hand + CACHE_SIZE)
  {
    if d > 0 {
      SweptIs(es, hand, d - 1);
    }
  }

  ghost predicate AllSpared(es: seq<Entry>, hand: nat, d: nat)
    requires |es| == CACHE_SIZE && hand < CACHE_SIZE && d <= CACHE_SIZE
  {
    forall e :: 0 <= e < d ==> Spared(es[Slot(hand, e)])
  }

  /** The hand meets an entry it has not cleared, so it moves on at most all the way round. */
  lemma SpareNext(es: seq<Entry>, hand: nat, d: nat)
    requires |es| == CACHE_SIZE && hand < CACHE_SIZE && d <= CACHE_SIZE && AllSpared(es, hand, d)
    requires Spared(Swept(es, hand, d)[Slot(hand, d)])
    ensures d < CACHE_SIZE && AllSpared(es, hand, d + 1) && Slot(hand, d + 1) == (Slot(hand, d) + 1) % CACHE_SIZE
  {
    SweptIs(es, hand, d);
  }

  lemma SpareStops(es: seq<Entry>, hand: nat, d: nat)
    requires |es| == CACHE_SIZE && hand < CACHE_SIZE && d <= CACHE_SIZE && AllSpared(es, hand, d)
    requires !Spared(Swept(es, hand, d)[Slot(hand, d)])
    ensures StopsAt(es, hand, d)
  {
    SweptIs(es, hand, d);
  }

  /** How far the hand moves: to the first entry that is not spared, or all the way round. */
  ghost predicate StopsAt(es: seq<Entry>, hand: nat, d: nat)
    requires |es| == CACHE_SIZE && hand < CACHE_SIZE
  {
    && d <= CACHE_SIZE
    && (forall e :: 0 <= e < d ==> Spared(es[Slot(hand, e)]))
    && (d < CACHE_SIZE ==> !Spared(es[Slot(hand, d)]))
  }

  /** The device after the entry at `slot` has made room: a dirty buffer was written back. */
  function Saved(es: seq<Entry>, disk: seq<Block>, slot: nat): seq<Block>
    requires slot < |es|
  {
    if es[slot].valid && es[slot].dirty && es[slot].sector < |disk| then disk[es[slot].sector := es[slot].buffer]
    else disk
  }

  /** One use of a sector leaves entry `i` as `e`. If the sector was cached, nothing else changes, not
      even the device; otherwise the clock search stopped after `d` entries, which lost their access
      bit, at an entry that made room. */
  ghost predicate Used(es: seq<Entry>, hand: nat, disk: seq<Block>, es': seq<Entry>, hand': nat, disk': seq<Block>,
                       sector: nat, i: nat, d: nat, e: Entry)
    requires |es| == |es'| == CACHE_SIZE && hand < CACHE_SIZE
  {
    && i < CACHE_SIZE && d <= CACHE_SIZE
    && if Cached(es, sector) then Caches(es, i, sector) && es' == es[i := e] && hand' == hand && disk' == disk
       else
         && StopsAt(es, hand, d) && hand' == i == Slot(hand, d)
         && es' == Swept(es, hand, d)[i := e] && disk' == Saved(es, disk, i)
  }

  /** Second chance: a sector used last survives the next miss while some other entry is free or has
      not been accessed. */
  lemma SecondChance(es: seq<Entry>, hand: nat, disk: seq<Block>, es': seq<Entry>, hand': nat, disk': seq<Block>,
                     a: nat, i: nat, b: nat, j: nat, d: nat, e: Entry, k: nat)
    requires |es| == |es'| == CACHE_SIZE && hand < CACHE_SIZE && i < CACHE_SIZE && k < CACHE_SIZE && k != i
    requires Caches(es, i, a) && es[i].access && !Spared(es[k]) && !Cached(es, b)
    requires Used(es, hand, disk, es', hand', disk', b, j, d, e)
    ensures Caches(es', i, a)
  {
    SweptIs(es, hand, d);
    var x: nat := if k >= hand then k - hand else k + CACHE_SIZE - hand;
    assert Slot(hand, x) == k && !Spared(es[Slot(hand, x)]);
  }

  // ----- the module's state -----

  class Cache {
    const entries: array<Entry>
    var clock: nat
    var disk: seq<Block>
    ghost var image: seq<Block>

    ghost predicate Valid()
      reads this, entries
    {
      && entries.Length == CACHE_SIZE && clock < CACHE_SIZE
      && Coherent(entries[..], disk, image)
    }

    /** `cache_init` on a given disk. */
    constructor (device: seq<Block>)
      ensures Valid() && image == device && disk == device && fresh(entries)
    {
      entries := new Entry[CACHE_SIZE](_ => Entry(false, 0, seq(512, _ => 0), false, false));
      clock, disk, image := 0, device, device;
    }

    /** `cache_flush`. */
    method Flush(i: nat)
      requires Valid() && i < CACHE_SIZE && entries[i].valid
      modifies this`disk, entries
      ensures Valid() && entries[..] == old(entries[..])[i := old(entries[i]).(dirty := false)]
      ensures old(entries[i].sector) < |old(disk)|
      ensures disk == if old(entries[i].dirty) then old(disk)[old(entries[i].sector) := old(entries[i].buffer)]
                      else old(disk)
    {
      Flushed(entries[..], disk, image, i);
      if entries[i].dirty {
        disk := disk[entries[i].sector := entries[i].buffer];
        ghost var was := entries[..];
        entries[i] := entries[i].(dirty := false);
        assert entries[..] == was[i := was[i].(dirty := false)];
      } else {
        assert entries[..] == entries[..][i := entries[i].(dirty := false)];
      }
    }

    /** `cache_find`. */
    method Find(sector: nat) returns (i: int)
      requires Valid()
      ensures -1 <= i < CACHE_SIZE
      ensures i >= 0 ==> Caches(entries[..], i, sector)
      ensures i == -1 ==> !Cached(entries[..], sector)
    {
      for k := 0 to CACHE_SIZE
        invariant forall j :: 0 <= j < k ==> !Caches(entries[..], j, sector)
      {
        if entries[k].valid && entries[k].sector == sector {
          return k;
        }
      }
      return -1;
    }

    /** `cache_replace_find`: within 65 probes the hand reaches a free slot, an entry not accessed
        since the last sweep, or its own starting point; the victim is written back if dirty. */
    method ReplaceFind() returns (slot: nat, ghost probes: nat)
      requires Valid()
      modifies this`clock, this`disk, entries
      ensures Valid() && slot < CACHE_SIZE && !entries[slot].valid
      ensures disk == Saved(old(entries[..]), old(disk), slot)
      ensures 1 <= probes <= CACHE_SIZE + 1 && StopsAt(old(entries[..]), old(clock), probes - 1)
      ensures slot == Slot(old(clock), probes - 1) && clock == slot
      ensures forall i :: 0 <= i < CACHE_SIZE && i != slot ==>
        entries[i] == Swept(old(entries[..]), old(clock), probes - 1)[i]
      ensures forall i, s :: Caches(entries[..], i, s) <==> i != slot && old(Caches(entries[..], i, s))
    {
      ghost var es, hand := entries[..], clock;
      ghost var d := SkipSpared();
      SweptIs(es, hand, d);
      slot, probes := clock, d + 1;
      if entries[slot].valid {
        Evict(slot);
      }
    }

    /** The loop of the clock search: entries used since the last turn lose their bit and are spared. */
    method SkipSpared() returns (ghost d: nat)
      requires Valid()
      modifies this`clock, entries
      ensures Valid() && d <= CACHE_SIZE && StopsAt(old(entries[..]), old(clock), d)
      ensures clock == Slot(old(clock), d) && entries[..] == Swept(old(entries[..]), old(clock), d)
    {
      ghost var es, hand := entries[..], clock;
      d := 0;
      while Spared(entries[clock])
        invariant clock < CACHE_SIZE && d <= CACHE_SIZE && clock == Slot(hand, d)
        invariant entries[..] == Swept(es, hand, d)
        invariant Coherent(entries[..], disk, image)
        invariant AllSpared(es, hand, d)
        decreases CACHE_SIZE - d
      {
        SpareNext(es, hand, d);
        SetAccess(entries[..], disk, image, clock, false);
        ghost var was := entries[..];
        entries[clock] := entries[clock].(access := false);
        assert entries[..] == was[Slot(hand, d) := was[Slot(hand, d)].(access := false)];
        clock := (clock + 1) % CACHE_SIZE;
        d := d + 1;
      }
      SpareStops(es, hand, d);
    }

    /** Write the victim back if it is dirty and invalidate it. */
    method Evict(slot: nat)
      requires Valid() && slot < CACHE_SIZE && entries[slot].valid
      modifies this`disk, entries
      ensures Valid() && !entries[slot].valid && disk == Saved(old(entries[..]), old(disk), slot)
      ensures forall i :: 0 <= i < CACHE_SIZE && i != slot ==> entries[i] == old(entries[i])
    {
      if entries[slot].dirty {
        Flush(slot);
      }
      Dropped(entries[..], disk, image, slot);
      ghost var was := entries[..];
      entries[slot] := entries[slot].(valid := false);
      assert entries[..] == was[slot := was[slot].(valid := false)];
    }

    /** The miss path shared by `cache_read` and `cache_write`. */
    method Load(sector: nat) returns (slot: nat, ghost d: nat)
      requires Valid() && sector < |disk| && !Cached(entries[..], sector)
      modifies this`clock, this`disk, entries
      ensures Valid() && Caches(entries[..], slot, sector)
      ensures Used(old(entries[..]), old(clock), old(disk), entries[..], clock, disk, sector, slot, d,
                   Entry(true, sector, image[sector], false, true))
    {
      ghost var probes, es, hand := 0, entries[..], clock;
      slot, probes := ReplaceFind();
      d := probes - 1;
      assert !Cached(entries[..], sector);
      Loaded(entries[..], disk, image, slot, sector);
      ghost var was := entries[..];
      entries[slot] := Entry(true, sector, disk[sector], false, true);
      assert entries[..] == was[slot := Entry(true, sector, disk[sector], false, true)];
      assert CachedOrSame(was, disk, image, sector);
      assert entries[..] == Swept(es, hand, d)[slot := Entry(true, sector, image[sector], false, true)];
    }

    /** `cache_read` as its callers see it: what the abstract disk holds, which stays as it is. */
    method Read(sector: nat) returns (target: Block)
      requires Valid() && sector < |image|
      modifies this`clock, this`disk, entries
      ensures Valid() && target == image[sector]
    {
      ghost var i, d;
      target, i, d := ReadEntry(sector);
    }

    /** `cache_read`: the entry counts as accessed from now on. */
    method ReadEntry(sector: nat) returns (target: Block, ghost slot: nat, ghost d: nat)
      requires Valid() && sector < |image|
      modifies this`clock, this`disk, entries
      ensures Valid() && target == image[sector] && slot < CACHE_SIZE
      ensures Used(old(entries[..]), old(clock), old(disk), entries[..], clock, disk, sector, slot, d,
                   Entry(true, sector, target, Cached(old(entries[..]), sector) && old(entries[..])[slot].dirty, true))
    {
      var i := Find(sector);
      d := 0;
      if i < 0 {
        i, d := Load(sector);
      }
      slot := i;
      assert Caches(entries[..], i, sector);
      SetAccess(entries[..], disk, image, i, true);
      ghost var was := entries[..];
      entries[i] := entries[i].(access := true);
      assert entries[..] == was[i := was[i].(access := true)];
      target := entries[i].buffer;
    }

    /** `cache_write` as its callers see it: exactly one sector of the abstract disk changes. */
    method Write(sector: nat, source: Block)
      requires Valid() && sector < |image|
      modifies this, entries
      ensures Valid() && image == old(image)[sector := source]
    {
      ghost var i, d := WriteEntry(sector, source);
    }

    /** `cache_write`: the entry is dirty and counts as accessed from now on. */
    method WriteEntry(sector: nat, source: Block) returns (ghost slot: nat, ghost d: nat)
      requires Valid() && sector < |image|
      modifies this, entries
      ensures Valid() && image == old(image)[sector := source] && slot < CACHE_SIZE
      ensures Used(old(entries[..]), old(clock), old(disk), entries[..], clock, disk, sector, slot, d,
                   Entry(true, sector, source, true, true))
    {
      var i := Find(sector);
      d := 0;
      if i < 0 {
        i, d := Load(sector);
      }
      slot := i;
      assert Caches(entries[..], i, sector);
      Written(entries[..], disk, image, i, source);
      ghost var was := entries[..];
      entries[i] := entries[i].(buffer := source, dirty := true, access := true);
      assert entries[..] == was[i := was[i].(buffer := source, dirty := true, access := true)];
      image := image[sector := source];
    }

    /** `cache_close`: afterwards the disk itself is the abstract disk. */
    method Close()
      requires Valid()
      modifies this`disk, entries
      ensures Valid() && disk == image
    {
      for i := 0 to CACHE_SIZE
        invariant Valid()
        invariant forall k :: 0 <= k < i && entries[k].valid ==> !entries[k].dirty
      {
        if entries[i].valid {
          Flush(i);
        }
      }
      CleanMeansSynced(entries[..], disk, image);
    }

    /** Any sequence of reads and writes gives the answers of a plain disk, and after closing
        the device holds what the plain disk would hold. */
    method Replay(ops: seq<Op>) returns (answers: seq<Block>)
      requires Valid() && forall k :: 0 <= k < |ops| ==> ops[k].sector < |image|
      modifies this, entries
      ensures answers == PlainAnswers(old(image), ops)
      ensures disk == PlainDisk(old(image), ops) == image && Valid()
    {
      answers := [];
      for k := 0 to |ops|
        invariant Valid() && |image| == |old(image)|
        invariant image == PlainDisk(old(image), ops[..k])
        invariant answers == PlainAnswers(old(image), ops[..k])
      {
        assert ops[..k + 1][..k] == ops[..k];
        match ops[k]
        case ReadSector(s) =>
          var block := Read(s);
          answers := answers + [block];
        case WriteSector(s, b) =>
          Write(s, b);
      }
      assert ops[..|ops|] == ops;
      Close();
    }
  }

  lemma CleanMeansSynced(es: seq<Entry>, disk: seq<Block>, image: seq<Block>)
    requires Coherent(es, disk, image) && forall i :: 0 <= i < |es| && es[i].valid ==> !es[i].dirty
    ensures disk == image
  {
    forall s | 0 <= s < |disk| ensures disk[s] == image[s] {
      assert CachedOrSame(es, disk, image, s);
      if Cached(es, s) {
        var i :| Caches(es, i, s);
      }
    }
  }

  // ----- the plain disk -----

  datatype Op = ReadSector(sector: nat) | WriteSector(sector: nat, block: Block)

  function PlainDisk(disk: seq<Block>, ops: seq<Op>): (d: seq<Block>)
    requires forall k :: 0 <= k < |ops| ==> ops[k].sector < |disk|
    ensures |d| == |disk|
  {
    if ops == [] then disk
    else
      var last := ops[|ops| - 1];
      var d := PlainDisk(disk, ops[..|ops| - 1]);
      if last.WriteSector? then d[last.sector := last.block] else d
  }

  function PlainAnswers(disk: seq<Block>, ops: seq<Op>): seq<Block>
    requires forall k :: 0 <= k < |ops| ==> ops[k].sector < |disk|
  {
    if ops == [] then []
    else
      var last, before := ops[|ops| - 1], ops[..|ops| - 1];
      PlainAnswers(disk, before) + if last.ReadSector? then [PlainDisk(disk, before)[last.sector]] else []
  }
}
