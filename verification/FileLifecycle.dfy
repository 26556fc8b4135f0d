/** End to end: create a file, write to it any number of times, read it back, remove it. */
module FileLifecycle {
  import opened BufferCache
  import opened ByteFile
  import opened InodeAllocation
  import opened InodeFile
  import opened InodeLayout
  import opened Machine
  import opened Volume

  datatype WriteOp = WriteOp(offset: nat, bytes: seq<Byte>)

  /** The file after the first `n` writes. */
  function Replayed(file: ByteFile, writes: seq<WriteOp>, n: nat): (f: ByteFile)
    requires n <= |writes| && Fits(file)
    ensures Fits(f)
  {
    if n == 0 then file
    else
      var was, w := Replayed(file, writes, n - 1), writes[n - 1];
      StepFits(was, w.offset, w.bytes);
      Step(was, w.offset, w.bytes)
  }

  lemma ReplayedNext(file: ByteFile, writes: seq<WriteOp>, k: nat, n: nat)
    requires k < |writes| && n == k + 1 && Fits(file)
    ensures Replayed(file, writes, n) == Step(Replayed(file, writes, k), writes[k].offset, writes[k].bytes)
  {
  }

  // ----- runs without a cut -----

  /** The plain byte array after the first `n` writes. */
  function Overlaid(file: seq<Byte>, writes: seq<WriteOp>, n: nat): seq<Byte>
    requires n <= |writes|
  {
    if n == 0 then file
    else Overlay(Overlaid(file, writes, n - 1), writes[n - 1].offset, writes[n - 1].bytes)
  }

  lemma OverlaidNext(file: seq<Byte>, writes: seq<WriteOp>, k: nat, n: nat)
    requires k < |writes| && n == k + 1
    ensures Overlaid(file, writes, n) == Overlay(Overlaid(file, writes, k), writes[k].offset, writes[k].bytes)
  {
  }

  /** None of the first `n` writes is an empty one at offset 0 to a file that has become nonempty. */
  predicate NeverCuts(file: ByteFile, writes: seq<WriteOp>, n: nat)
    requires n <= |writes| && Fits(file)
  {
    forall k :: 0 <= k < n ==> !CutAt(file, writes, k)
  }

  predicate CutAt(file: ByteFile, writes: seq<WriteOp>, k: nat)
    requires k < |writes| && Fits(file)
  {
    Cuts(Replayed(file, writes, k).length, End(writes[k].offset, writes[k].bytes))
  }

  /** Without a cut the file is the plain byte array and holds no sector beyond its length. */
  lemma {:induction false} PlainRun(file: ByteFile, writes: seq<WriteOp>, n: nat)
    requires n <= |writes| && Tight(file) && Fits(file) && NeverCuts(file, writes, n)
    ensures Tight(Replayed(file, writes, n))
    ensures Visible(Replayed(file, writes, n)) == Overlaid(Visible(file), writes, n)
  {
    if n > 0 {
      var k: nat := n - 1;
      PlainRun(file, writes, k);
      assert !CutAt(file, writes, k);
      ReplayedNext(file, writes, k, n);
      PlainStep(Replayed(file, writes, k), writes[k].offset, writes[k].bytes);
      OverlaidNext(Visible(file), writes, k, n);
    }
  }

  lemma BlankTight(length: nat)
    ensures Tight(Blank(length)) && Fits(Blank(length)) && Visible(Blank(length)) == ZeroBytes(length)
  {
    assert Visible(Blank(length)) == ZeroBytes(length);
  }

  // ----- room -----

  /** Free sectors, the inode's and its own sector make up `all`. */
  ghost predicate Accounted(s: Snapshot, all: set<int>) {
    s.free + Owns(s.id, s.lay) + {s.sector} == all
  }

  /** They add up. */
  lemma FreeCount(s: Snapshot, all: set<int>)
    requires Intact(s) && Accounted(s, all)
    ensures |s.free| + Cost(|s.lay.data|) + 1 == |all|
  {
    IntactIs(s);
    OwnedCost(s.c, s.id, s.lay);
    OwnsCard(s.c, s.free, s.id, s.lay);
    assert |s.free + Owns(s.id, s.lay)| == |s.free| + |Owns(s.id, s.lay)|;
    assert s.sector !in s.free + Owns(s.id, s.lay);
  }

  /** Within the limit there is always room to grow. */
  lemma EnoughRoom(s: Snapshot, all: set<int>, length: nat, limit: nat)
    requires Intact(s) && Accounted(s, all)
    requires length <= limit && SectorsFor(limit) <= MAX_SECTORS && |all| >= Cost(SectorsFor(limit)) + 1
    ensures SectorsFor(length) <= MAX_SECTORS && Spare(s, length) >= 0
  {
    FreeCount(s, all);
    CostMonotone(SectorsFor(length), SectorsFor(limit));
  }

  ghost predicate Within(writes: seq<WriteOp>, limit: nat) {
    forall k :: 0 <= k < |writes| ==> End(writes[k].offset, writes[k].bytes) <= limit
  }

  // ----- the program -----

  /** One write of the sequence. */
  method Apply(f: Inode, w: WriteOp, limit: nat, ghost all: set<int>)
    requires f.Valid() && f.denyWriteCnt == 0 && Accounted(f.Now(), all)
    requires End(w.offset, w.bytes) <= limit && SectorsFor(limit) <= MAX_SECTORS
    requires |all| >= Cost(SectorsFor(limit)) + 1
    modifies f`data, f`lay, f.v`free, f.v.cache, f.v.cache.entries
    ensures f.Valid() && Accounted(f.Now(), all) && f.File() == Step(old(f.File()), w.offset, w.bytes)
  {
    var offset, bytes := w.offset, w.bytes;
    ghost var s0 := f.Now();
    EnoughRoom(s0, all, End(offset, bytes), limit);
    var written := f.WriteAt(bytes, offset);
    StillAccounted(s0, f.Now(), all);
  }

  lemma StillAccounted(s0: Snapshot, s1: Snapshot, all: set<int>)
    requires Grows(s0, s1) && Accounted(s0, all) && s1.sector == s0.sector
    ensures Accounted(s1, all)
  {
    GrowsIs(s0, s1);
  }

  /** The first `n` writes in turn. */
  method ApplyAll(f: Inode, writes: seq<WriteOp>, n: nat, limit: nat, ghost all: set<int>)
    requires f.Valid() && f.denyWriteCnt == 0 && Accounted(f.Now(), all) && n <= |writes|
    requires Within(writes, limit) && SectorsFor(limit) <= MAX_SECTORS
    requires |all| >= Cost(SectorsFor(limit)) + 1
    modifies f`data, f`lay, f.v`free, f.v.cache, f.v.cache.entries
    ensures f.Valid() && Accounted(f.Now(), all) && f.File() == Replayed(old(f.File()), writes, n)
  {
    if n > 0 {
      ghost var file := f.File();
      var k: nat := n - 1;
      ApplyAll(f, writes, k, limit, all);
      ReplayedNext(file, writes, k, n);
      Apply(f, writes[k], limit, all);
    }
  }

  /** A new file in a sector of its own. */
  method NewFile(v: Volume, length: nat) returns (f: Inode)
    requires v.Valid() && SectorsFor(length) <= MAX_SECTORS && |v.free| >= Cost(SectorsFor(length)) + 1
    modifies v`free, v.cache, v.cache.entries
    ensures fresh(f) && f.v == v && f.Valid() && f.openCnt == 1 && f.denyWriteCnt == 0 && f.sector > 0
    ensures f.File() == Blank(length) && Accounted(f.Now(), old(v.free))
    ensures Untouched(old(v.cache.image), v.cache.image, Footprint(f.Now()))
  {
    var taken, sector := v.TakeSector(0);
    ghost var id, lay;
    var ok;
    ok, id, lay := Create(v, sector, length);
    FromFree(old(v.cache.image), old(v.free), Snapshot(v.cache.image, v.free, sector, id, lay), length);
    f := new Inode.Open(v, sector, id, lay);
  }

  lemma FromFree(c: seq<Block>, free: set<int>, s: Snapshot, length: nat)
    requires s.sector in free && Created(c, free - {s.sector}, s, length)
    ensures Accounted(s, free)
  {
  }

  /** A new file after a sequence of writes. */
  method Written(v: Volume, length: nat, writes: seq<WriteOp>, limit: nat) returns (f: Inode)
    requires v.Valid() && length <= limit && Within(writes, limit) && SectorsFor(limit) <= MAX_SECTORS
    requires |v.free| >= Cost(SectorsFor(limit)) + 1
    modifies v`free, v.cache, v.cache.entries
    ensures fresh(f) && f.v == v && f.Valid() && f.openCnt == 1 && f.sector > 0
    ensures Accounted(f.Now(), old(v.free)) && f.File() == Replayed(Blank(length), writes, |writes|)
  {
    CostMonotone(SectorsFor(length), SectorsFor(limit));
    f := NewFile(v, length);
    ApplyAll(f, writes, |writes|, limit, old(v.free));
  }

  /** Read the whole file, remove it and close it. */
  method Finish(f: Inode, ghost all: set<int>) returns (bytes: seq<Byte>, ghost lost: set<int>)
    requires f.Valid() && f.openCnt == 1 && f.sector > 0 && Accounted(f.Now(), all)
    modifies f`openCnt, f`removed, f.v`free, f.v.cache`clock, f.v.cache`disk, f.v.cache.entries
    ensures f.v.Valid() && bytes == Visible(old(f.File())) && f.v.free == all - lost && lost <= all
    ensures |lost| == Excess(old(f.File()))
  {
    bytes := ReadAll(f);
    lost := Lost(f.Now());
    AllButLost(f.Now(), all);
    Discard(f);
  }

  /** Remove the file and close it for the last time. */
  method Discard(f: Inode)
    requires f.Valid() && f.openCnt == 1 && f.sector > 0
    modifies f`openCnt, f`removed, f.v`free, f.v.cache`clock, f.v.cache`disk, f.v.cache.entries
    ensures f.v.Valid() && f.v.free == old(f.v.free) + old(Returned(f.Now()))
  {
    f.removed := true;
    f.Close();
  }

  method ReadAll(f: Inode) returns (bytes: seq<Byte>)
    requires f.Valid()
    modifies f.v.cache`clock, f.v.cache`disk, f.v.cache.entries
    ensures f.Valid() && f.Now() == old(f.Now()) && bytes == Visible(f.File())
  {
    var size := f.data.length;
    WholeStretch(Visible(f.File()), size);
    bytes := f.ReadAt(size, 0);
  }

  /** After the last close everything is free except what was lost. */
  lemma AllButLost(s: Snapshot, all: set<int>)
    requires Intact(s) && Accounted(s, all)
    ensures s.free + Returned(s) == all - Lost(s) && Lost(s) <= all
    ensures |Lost(s)| == Excess(Contents(s))
  {
    LostSectors(s);
    ExcessOf(Contents(s), |s.lay.data|);
    Regained(s.free, Lost(s), Returned(s), Owns(s.id, s.lay), {s.sector});
  }

  lemma Regained(free: set<int>, lost: set<int>, back: set<int>, own: set<int>, home: set<int>)
    requires lost + back == own + home && lost !! free + back
    ensures free + back == free + own + home - lost && lost <= free + own + home
  {
  }

  /** Create, write any number of times, read, remove, close: the bytes read are those of the byte file
      after the same writes, and the free map gets back everything except the sectors that file still
      holds beyond its length. */
  method Lifecycle(v: Volume, length: nat, writes: seq<WriteOp>, limit: nat)
      returns (bytes: seq<Byte>, ghost lost: set<int>)
    requires v.Valid() && length <= limit && Within(writes, limit) && SectorsFor(limit) <= MAX_SECTORS
    requires |v.free| >= Cost(SectorsFor(limit)) + 1
    modifies v`free, v.cache, v.cache.entries
    ensures v.Valid() && v.free == old(v.free) - lost && lost <= old(v.free)
    ensures var file := Replayed(Blank(length), writes, |writes|);
            bytes == Visible(file) && |lost| == Excess(file)
  {
    var f := Written(v, length, writes, limit);
    bytes, lost := Finish(f, old(v.free));
  }

  /** Without a cut the bytes are those of a plain byte array and every sector is free again. */
  method PlainLifecycle(v: Volume, length: nat, writes: seq<WriteOp>, limit: nat) returns (bytes: seq<Byte>)
    requires v.Valid() && length <= limit && Within(writes, limit) && SectorsFor(limit) <= MAX_SECTORS
    requires |v.free| >= Cost(SectorsFor(limit)) + 1 && NeverCuts(Blank(length), writes, |writes|)
    modifies v`free, v.cache, v.cache.entries
    ensures v.Valid() && v.free == old(v.free) && bytes == Overlaid(ZeroBytes(length), writes, |writes|)
  {
    BlankTight(length);
    PlainRun(Blank(length), writes, |writes|);
    ExcessExact(Replayed(Blank(length), writes, |writes|));
    ghost var lost;
    bytes, lost := Lifecycle(v, length, writes, limit);
    assert lost == {};
  }
}
