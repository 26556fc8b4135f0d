/** Whole runs of a volume with any number of files (pintos_pro3/src/filesys/inode.c): creating, writing
    and removing in any order refines operations on a list of byte files, and every sector is free,
    owned by one file or lost to a cut. */
module FileSession {
  import opened BufferCache
  import opened ByteFile
  import opened FileLifecycle
  import opened Files
  import opened Guard
  import opened InodeAllocation
  import opened InodeFile
  import opened InodeLayout
  import opened Machine
  import opened Volume

  datatype FileOp = Make(length: nat) | Put(file: nat, offset: nat, bytes: seq<Byte>) | Drop(file: nat)

  /** The files there are, and how many sectors removed files have lost. */
  datatype FileSystem = FileSystem(files: seq<ByteFile>, lost: int)

  /** Sectors a file takes up, its own among them. */
  function Price(f: ByteFile): nat {
    Cost(|f.stored| / 512) + 1
  }

  function Used(fs: seq<ByteFile>): nat {
    if fs == [] then 0 else Used(fs[..|fs| - 1]) + Price(fs[|fs| - 1])
  }

  /** What an operation asks of the file system, with `room` sectors in all. */
  predicate Allowed(d: FileSystem, op: FileOp, room: int) {
    match op
    case Make(length) =>
      SectorsFor(length) <= MAX_SECTORS && Used(d.files) + d.lost + Cost(SectorsFor(length)) + 1 <= room
    case Put(i, offset, bytes) =>
      && i < |d.files| && SectorsFor(End(offset, bytes)) <= MAX_SECTORS
      && Used(d.files) + d.lost + Cost(SectorsFor(End(offset, bytes))) + 1 - Price(d.files[i]) <= room
    case Drop(i) => i < |d.files|
  }

  function Next(d: FileSystem, op: FileOp): FileSystem {
    match op
    case Make(length) => FileSystem(d.files + [Blank(length)], d.lost)
    case Put(i, offset, bytes) =>
      if i < |d.files| then FileSystem(d.files[i := Step(d.files[i], offset, bytes)], d.lost) else d
    case Drop(i) =>
      if i < |d.files| then FileSystem(Except(d.files, i), d.lost + Excess(d.files[i])) else d
  }

  /** The file system after the first `n` operations, empty at the start. */
  function After(ops: seq<FileOp>, n: nat): FileSystem
    requires n <= |ops|
  {
    if n == 0 then FileSystem([], 0) else Next(After(ops, n - 1), ops[n - 1])
  }

  lemma AfterNext(ops: seq<FileOp>, k: nat, n: nat)
    requires k < |ops| && n == k + 1
    ensures After(ops, n) == Next(After(ops, k), ops[k])
  {
  }

  predicate AllowedAt(ops: seq<FileOp>, k: nat, room: int)
    requires k < |ops|
  {
    Allowed(After(ops, k), ops[k], room)
  }

  // ----- adding up -----

  lemma UsedWith(fs: seq<ByteFile>, f: ByteFile)
    ensures Used(fs + [f]) == Used(fs) + Price(f)
  {
    assert (fs + [f])[..|fs|] == fs;
  }

  lemma {:induction false} UsedUpdate(fs: seq<ByteFile>, i: nat, f: ByteFile)
    requires i < |fs|
    ensures Used(fs[i := f]) == Used(fs) - Price(fs[i]) + Price(f)
  {
    var n := |fs| - 1;
    if i == n {
      assert fs[i := f][..n] == fs[..n];
    } else {
      assert fs[i := f][..n] == fs[..n][i := f];
      UsedUpdate(fs[..n], i, f);
    }
  }

  lemma ExceptInit(fs: seq<ByteFile>, i: nat, n: nat)
    requires i < n && |fs| == n + 1
    ensures Except(fs, i) == Except(fs[..n], i) + [fs[n]]
  {
  }

  lemma {:induction false} UsedExcept(fs: seq<ByteFile>, i: nat)
    requires i < |fs|
    ensures Used(Except(fs, i)) == Used(fs) - Price(fs[i])
  {
    var n := |fs| - 1;
    if i == n {
      assert Except(fs, i) == fs[..n];
    } else {
      UsedExcept(fs[..n], i);
      ExceptInit(fs, i, n);
      UsedWith(Except(fs[..n], i), fs[n]);
    }
  }

  /** The files hold what the file system says, and every sector is free, in use or lost. */
  ghost predicate AddsUp(c: seq<Block>, free: set<int>, ss: seq<Snapshot>, d: FileSystem, room: int) {
    Together(c, free, ss) && Held(ss) == d.files && |free| + Used(d.files) + d.lost == room
  }

  /** The same, unfolded only where a proof calls `BalancedIs`. */
  ghost predicate Balanced(c: seq<Block>, free: set<int>, ss: seq<Snapshot>, d: FileSystem, room: int) {
    forall e :: Is(e, d) ==> AddsUp(c, free, ss, e, room)
  }

  lemma BalancedIs(c: seq<Block>, free: set<int>, ss: seq<Snapshot>, d: FileSystem, room: int)
    ensures Balanced(c, free, ss, d, room) <==> AddsUp(c, free, ss, d, room)
  {
    assert Is(d, d);
  }

  lemma FootprintCard(s: Snapshot)
    requires Intact(s)
    ensures |Footprint(s)| == Price(Contents(s)) && |s.free + Footprint(s)| == |s.free| + Price(Contents(s))
  {
    IntactIs(s);
    OwnedCost(s.c, s.id, s.lay);
    OwnsCard(s.c, s.free, s.id, s.lay);
    FootprintInUse(s);
    assert |Footprint(s)| == |Owns(s.id, s.lay)| + 1;
    assert |Contents(s).stored| / 512 == |s.lay.data|;
  }

  lemma MakeBalances(free: set<int>, fs: seq<ByteFile>, a: Snapshot)
    requires Intact(a) && Accounted(a, free)
    ensures |a.free| + Used(fs + [Contents(a)]) == |free| + Used(fs)
  {
    FootprintCard(a);
    UsedWith(fs, Contents(a));
    assert a.free + Footprint(a) == free;
  }

  lemma PutBalances(fs: seq<ByteFile>, i: nat, s: Snapshot, a: Snapshot)
    requires i < |fs| && Intact(s) && Intact(a) && Grows(s, a) && a.sector == s.sector && fs[i] == Contents(s)
    ensures |a.free| + Used(fs[i := Contents(a)]) == |s.free| + Used(fs)
  {
    FootprintCard(s);
    FootprintCard(a);
    UsedUpdate(fs, i, Contents(a));
    GrowsIs(s, a);
    WithHome(a.free, Owns(a.id, a.lay), s.free, Owns(s.id, s.lay), {s.sector});
  }

  lemma WithHome(free1: set<int>, own1: set<int>, free0: set<int>, own0: set<int>, home: set<int>)
    requires free1 + own1 == free0 + own0
    ensures free1 + (own1 + home) == free0 + (own0 + home)
  {
  }

  lemma DropBalances(fs: seq<ByteFile>, i: nat, s: Snapshot, free': set<int>)
    requires i < |fs| && Intact(s) && fs[i] == Contents(s) && free' == s.free + Returned(s)
    ensures |free'| + Used(Except(fs, i)) + Excess(fs[i]) == |s.free| + Used(fs)
  {
    FootprintCard(s);
    LostSectors(s);
    ExcessOf(Contents(s), |s.lay.data|);
    UsedExcept(fs, i);
    ReturnedCard(s.free, Returned(s), Lost(s), Footprint(s));
  }

  lemma ReturnedCard(free: set<int>, back: set<int>, lost: set<int>, own: set<int>)
    requires lost !! free + back && lost + back == own
    ensures |free + back| + |lost| == |free + own|
  {
    assert free + own == (free + back) + lost;
  }

  // ----- the operations on snapshots -----

  lemma MakeStep(c: seq<Block>, free: set<int>, ss: seq<Snapshot>, d: FileSystem, room: int, length: nat, a: Snapshot)
    requires Balanced(c, free, ss, d, room) && Intact(a) && Contents(a) == Blank(length)
    requires Untouched(c, a.c, Footprint(a)) && Accounted(a, free)
    ensures Balanced(a.c, a.free, Moved(ss, a.c, a.free) + [a], Next(d, Make(length)), room)
  {
    BalancedIs(c, free, ss, d, room);
    BalancedIs(a.c, a.free, Moved(ss, a.c, a.free) + [a], Next(d, Make(length)), room);
    CreateKeeps(c, free, ss, a);
    MakeBalances(free, d.files, a);
  }

  lemma PutStep(c: seq<Block>, free: set<int>, ss: seq<Snapshot>, d: FileSystem, room: int, i: nat, offset: nat,
                bytes: seq<Byte>, a: Snapshot)
    requires Balanced(c, free, ss, d, room) && i < |ss| && a.sector == ss[i].sector
    requires Intact(ss[i]) && Becomes(ss[i], a, Step(Contents(ss[i]), offset, bytes))
    ensures Balanced(a.c, a.free, Rebased(ss, i, a), Next(d, Put(i, offset, bytes)), room)
  {
    BalancedIs(c, free, ss, d, room);
    BalancedIs(a.c, a.free, Rebased(ss, i, a), Next(d, Put(i, offset, bytes)), room);
    WriteKeeps(c, free, ss, i, a);
    PutBalances(d.files, i, ss[i], a);
  }

  lemma DropStep(c: seq<Block>, free: set<int>, ss: seq<Snapshot>, d: FileSystem, room: int, i: nat, free': set<int>)
    requires Balanced(c, free, ss, d, room) && i < |ss| && free' == free + Returned(ss[i])
    ensures Balanced(c, free', Moved(Except(ss, i), c, free'), Next(d, Drop(i)), room)
  {
    BalancedIs(c, free, ss, d, room);
    BalancedIs(c, free', Moved(Except(ss, i), c, free'), Next(d, Drop(i)), room);
    RemoveKeeps(c, free, ss, i, free');
    DropBalances(d.files, i, ss[i], free');
  }

  /** Room for a write to file `i`. */
  lemma RoomToPut(c: seq<Block>, free: set<int>, ss: seq<Snapshot>, d: FileSystem, room: int, i: nat, offset: nat,
                  bytes: seq<Byte>)
    requires Balanced(c, free, ss, d, room) && Allowed(d, Put(i, offset, bytes), room) && i < |ss|
    ensures Intact(ss[i]) && Spare(ss[i], End(offset, bytes)) >= 0
  {
    BalancedIs(c, free, ss, d, room);
    assert |Contents(ss[i]).stored| / 512 == |ss[i].lay.data|;
  }

  lemma RoomToMake(c: seq<Block>, free: set<int>, ss: seq<Snapshot>, d: FileSystem, room: int, length: nat)
    requires Balanced(c, free, ss, d, room) && Allowed(d, Make(length), room)
    ensures |free| >= Cost(SectorsFor(length)) + 1
  {
    BalancedIs(c, free, ss, d, room);
  }

  /** The files there are. */
  lemma FileCount(c: seq<Block>, free: set<int>, ss: seq<Snapshot>, d: FileSystem, room: int)
    requires Balanced(c, free, ss, d, room)
    ensures |ss| == |d.files| && forall i :: 0 <= i < |ss| ==> Intact(ss[i])
  {
    BalancedIs(c, free, ss, d, room);
  }

  // ----- the program -----

  ghost predicate AllFresh(files: seq<Inode>)
    reads files
  {
    forall i :: 0 <= i < |files| ==> Fresh(files[i])
  }

  /** Everything that holds between two operations. */
  ghost predicate Running(files: seq<Inode>, v: Volume, d: FileSystem, room: int)
    reads files, v, v.cache, v.cache.entries
  {
    && OnVolume(files, v) && v.Valid() && AllFresh(files)
    && Balanced(v.cache.image, v.free, Snapshots(files, v), d, room)
  }

  method DoMake(files: seq<Inode>, v: Volume, length: nat, ghost d: FileSystem, ghost room: int)
      returns (files': seq<Inode>)
    requires Running(files, v, d, room) && Allowed(d, Make(length), room)
    modifies v`free, v.cache, v.cache.entries
    ensures Running(files', v, Next(d, Make(length)), room)
    ensures forall f :: f in files' ==> f in files || fresh(f)
  {
    ghost var c, free, ss := v.cache.image, v.free, Snapshots(files, v);
    RoomToMake(c, free, ss, d, room, length);
    var f := New(files, v, length);
    MakeStep(c, free, ss, d, room, length, f.Now());
    SnapshotsWith(files, v, f);
    files' := files + [f];
  }

  method DoPut(files: seq<Inode>, v: Volume, i: nat, f: Inode, offset: nat, bytes: seq<Byte>,
               ghost d: FileSystem, ghost room: int)
    requires Running(files, v, d, room) && Allowed(d, Put(i, offset, bytes), room) && i < |files| && f == files[i]
    modifies f`data, f`lay, v`free, v.cache, v.cache.entries
    ensures Running(files, v, Next(d, Put(i, offset, bytes)), room)
  {
    ghost var c, free, ss := v.cache.image, v.free, Snapshots(files, v);
    RoomToPut(c, free, ss, d, room, i, offset, bytes);
    Write(files, v, i, f, bytes, offset);
    PutStep(c, free, ss, d, room, i, offset, bytes, f.Now());
    forall j | 0 <= j < |files| ensures Fresh(files[j]) {
      assert old(Fresh(files[j]));
    }
  }

  method DoDrop(files: seq<Inode>, v: Volume, i: nat, f: Inode, ghost d: FileSystem, ghost room: int)
      returns (files': seq<Inode>)
    requires Running(files, v, d, room) && i < |files| && f == files[i]
    modifies f`openCnt, f`removed, v`free, v.cache`clock, v.cache`disk, v.cache.entries
    ensures Running(files', v, Next(d, Drop(i)), room)
    ensures forall f :: f in files' ==> f in files
  {
    ghost var c, free, ss := v.cache.image, v.free, Snapshots(files, v);
    FileCount(c, free, ss, d, room);
    Remove(files, v, i, f);
    DropStep(c, free, ss, d, room, i, v.free);
    SnapshotsWithout(files, v, i);
    MovedExcept(ss, i, c, v.free);
    files' := Except(files, i);
    forall j | 0 <= j < |files'| ensures Fresh(files'[j]) {
      assert old(Fresh(files'[j]));
    }
  }

  /** One operation. */
  method Execute(files: seq<Inode>, v: Volume, op: FileOp, ghost d: FileSystem, ghost room: int)
      returns (files': seq<Inode>)
    requires Running(files, v, d, room) && Allowed(d, op, room)
    modifies (set f | f in files), v`free, v.cache, v.cache.entries
    ensures Running(files', v, Next(d, op), room)
    ensures forall f :: f in files' ==> f in files || fresh(f)
  {
    FileCount(v.cache.image, v.free, Snapshots(files, v), d, room);
    match op
    case Make(length) => files' := DoMake(files, v, length, d, room);
    case Put(i, offset, bytes) =>
      files' := files;
      DoPut(files, v, i, files[i], offset, bytes, d, room);
    case Drop(i) => files' := DoDrop(files, v, i, files[i], d, room);
  }

  /** Any run of creations, writes and removals on a volume that starts without files. */
  method Session(v: Volume, ops: seq<FileOp>, n: nat) returns (files: seq<Inode>)
    requires v.Valid() && n <= |ops| && forall k :: 0 <= k < n ==> AllowedAt(ops, k, |v.free|)
    modifies v`free, v.cache, v.cache.entries
    ensures forall f :: f in files ==> fresh(f)
    ensures Running(files, v, After(ops, n), |old(v.free)|)
  {
    files := [];
    BalancedIs(v.cache.image, v.free, Snapshots(files, v), FileSystem([], 0), |v.free|);
    if n > 0 {
      var k: nat := n - 1;
      files := Session(v, ops, k);
      assert AllowedAt(ops, k, |old(v.free)|);
      AfterNext(ops, k, n);
      files := Execute(files, v, ops[k], After(ops, k), |old(v.free)|);
    }
  }

  // ----- runs that lose nothing -----

  predicate AllTight(fs: seq<ByteFile>) {
    forall i :: 0 <= i < |fs| ==> Fits(fs[i]) && Tight(fs[i])
  }

  /** Only an empty write at the start of a nonempty file cuts it. */
  predicate CutsAt(ops: seq<FileOp>, k: nat)
    requires k < |ops|
  {
    match ops[k]
    case Put(i, offset, bytes) =>
      var fs := After(ops, k).files;
      i < |fs| && Cuts(fs[i].length, End(offset, bytes))
    case _ => false
  }

  /** Without a cut nothing is ever lost. */
  lemma {:induction false} NothingLost(ops: seq<FileOp>, n: nat)
    requires n <= |ops| && forall k :: 0 <= k < n ==> !CutsAt(ops, k)
    ensures After(ops, n).lost == 0 && AllTight(After(ops, n).files)
  {
    if n > 0 {
      var k: nat := n - 1;
      NothingLost(ops, k);
      AfterNext(ops, k, n);
      assert !CutsAt(ops, k);
      var fs := After(ops, k).files;
      match ops[k]
      case Make(length) => BlankTight(length);
      case Put(i, offset, bytes) =>
        if i < |fs| {
          PlainStep(fs[i], offset, bytes);
        }
      case Drop(i) =>
        if i < |fs| {
          ExcessExact(fs[i]);
        }
    }
  }
}
