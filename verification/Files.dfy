/** Many open files on one volume (pintos_pro3/src/filesys/inode.c): their sectors stay pairwise
    disjoint, an operation on one of them changes the bytes of no other, and every sector is accounted
    for over any run of creations, writes and removals. */
module Files {
  import opened BufferCache
  import opened ByteFile
  import opened FileLifecycle
  import opened InodeAllocation
  import opened InodeFile
  import opened InodeLayout
  import opened Lists
  import opened Machine
  import opened Volume

  // ----- snapshots of several files -----

  /** The files are sound on one device and free map, and no two of them share a sector, be it data,
      index or inode. */
  ghost predicate Together(c: seq<Block>, free: set<int>, ss: seq<Snapshot>) {
    && (forall i :: 0 <= i < |ss| ==> Intact(ss[i]))
    && (forall i :: 0 <= i < |ss| ==> ss[i].c == c && ss[i].free == free)
    && (forall i, j :: 0 <= i < j < |ss| ==> DisjointFiles(ss[i], ss[j]))
  }

  ghost predicate DisjointFiles(a: Snapshot, b: Snapshot) {
    Footprint(a) !! Footprint(b)
  }

  lemma AnyTwoDisjoint(c: seq<Block>, free: set<int>, ss: seq<Snapshot>, i: nat, j: nat)
    requires Together(c, free, ss) && i < |ss| && j < |ss| && i != j
    ensures DisjointFiles(ss[i], ss[j])
  {
    assert DisjointFiles(ss[if i < j then i else j], ss[if i < j then j else i]);
  }

  /** Distinct files map no two of their sector indices to one device sector, nor one to an index or
      inode sector of another. */
  lemma MappingsDisjoint(c: seq<Block>, free: set<int>, ss: seq<Snapshot>, i: nat, j: nat, p: nat)
    requires Together(c, free, ss) && i < |ss| && j < |ss| && i != j && p < |ss[i].lay.data|
    ensures ss[i].lay.data[p] !in Footprint(ss[j])
    ensures forall q :: 0 <= q < |ss[j].lay.data| ==> ss[i].lay.data[p] != ss[j].lay.data[q]
  {
    AnyTwoDisjoint(c, free, ss, i, j);
    OwnsIs(ss[i].id, ss[i].lay);
    OwnsIs(ss[j].id, ss[j].lay);
    var x := ss[i].lay.data[p];
    assert x in Elems(ss[i].lay.data);
    forall q | 0 <= q < |ss[j].lay.data| ensures x != ss[j].lay.data[q] {
      var y := ss[j].lay.data[q];
      assert y in Elems(ss[j].lay.data);
    }
  }

  /** What the files hold. */
  ghost function Held(ss: seq<Snapshot>): (fs: seq<ByteFile>)
    requires forall i :: 0 <= i < |ss| ==> Intact(ss[i])
    ensures |fs| == |ss| && forall i :: 0 <= i < |ss| ==> fs[i] == Contents(ss[i])
  {
    seq(|ss|, i requires 0 <= i < |ss| => Contents(ss[i]))
  }

  /** The files seen on another device and free map. */
  ghost function Moved(ss: seq<Snapshot>, c: seq<Block>, free: set<int>): (r: seq<Snapshot>)
    ensures |r| == |ss| && forall j :: 0 <= j < |ss| ==> r[j] == On(ss[j], c, free)
  {
    seq(|ss|, j requires 0 <= j < |ss| => On(ss[j], c, free))
  }

  /** Files that each stay sound with the same contents when the volume changes under them are still
      together. */
  lemma MovedTogether(c: seq<Block>, free: set<int>, ss: seq<Snapshot>, c': seq<Block>, free': set<int>)
    requires Together(c, free, ss)
    requires forall j :: 0 <= j < |ss| ==> Kept(ss[j], c', free')
    ensures Together(c', free', Moved(ss, c', free')) && Held(Moved(ss, c', free')) == Held(ss)
  {
    var r := Moved(ss, c', free');
    forall j | 0 <= j < |ss| ensures Intact(r[j]) && Contents(r[j]) == Contents(ss[j]) {
      assert Kept(ss[j], c', free');
    }
    forall j, k | 0 <= j < k < |ss| ensures DisjointFiles(r[j], r[k]) {
      assert DisjointFiles(ss[j], ss[k]);
    }
    assert Held(r) == Held(ss);
  }

  /** One more file apart from all the others. */
  lemma TogetherWith(c: seq<Block>, free: set<int>, ss: seq<Snapshot>, a: Snapshot)
    requires Together(c, free, ss) && Intact(a) && a.c == c && a.free == free
    requires forall j :: 0 <= j < |ss| ==> DisjointFiles(ss[j], a)
    ensures Together(c, free, ss + [a]) && Held(ss + [a]) == Held(ss) + [Contents(a)]
  {
    var more := ss + [a];
    assert Together(c, free, more);
    assert Held(more) == Held(ss) + [Contents(a)];
  }

  /** All files but one. */
  function Except<T>(s: seq<T>, i: nat): (r: seq<T>)
    requires i < |s|
    ensures |r| == |s| - 1 && forall j :: 0 <= j < |r| ==> r[j] == s[if j < i then j else j + 1]
  {
    s[..i] + s[i + 1..]
  }

  lemma TogetherWithout(c: seq<Block>, free: set<int>, ss: seq<Snapshot>, i: nat)
    requires Together(c, free, ss) && i < |ss|
    ensures Together(c, free, Except(ss, i)) && Held(Except(ss, i)) == Except(Held(ss), i)
  {
    var r := Except(ss, i);
    assert Together(c, free, r);
    assert Held(r) == Except(Held(ss), i);
  }

  lemma ApartFromRest(c: seq<Block>, free: set<int>, ss: seq<Snapshot>, i: nat)
    requires Together(c, free, ss) && i < |ss|
    ensures forall j :: 0 <= j < |ss| - 1 ==> DisjointFiles(Except(ss, i)[j], ss[i])
  {
    var r := Except(ss, i);
    forall j | 0 <= j < |r| ensures DisjointFiles(r[j], ss[i]) {
      AnyTwoDisjoint(c, free, ss, if j < i then j else j + 1, i);
    }
  }

  // ----- what each operation keeps -----

  /** A new file takes only free sectors, so it is apart from all others and disturbs none. */
  lemma CreateKeeps(c: seq<Block>, free: set<int>, ss: seq<Snapshot>, a: Snapshot)
    requires Together(c, free, ss) && Intact(a) && Untouched(c, a.c, Footprint(a)) && Accounted(a, free)
    ensures Together(a.c, a.free, Moved(ss, a.c, a.free) + [a])
    ensures Held(Moved(ss, a.c, a.free) + [a]) == Held(ss) + [Contents(a)]
  {
    forall j | 0 <= j < |ss| ensures Kept(ss[j], a.c, a.free) && DisjointFiles(ss[j], a) {
      FootprintInUse(ss[j]);
      ApartIsKept(a, ss[j]);
    }
    MovedTogether(c, free, ss, a.c, a.free);
    TogetherWith(a.c, a.free, Moved(ss, a.c, a.free), a);
  }

  /** File `i` has become `a`; the others are seen on its volume. */
  ghost function Rebased(ss: seq<Snapshot>, i: nat, a: Snapshot): (r: seq<Snapshot>)
    requires i < |ss|
    ensures |r| == |ss| && forall j :: 0 <= j < |ss| ==> r[j] == if j == i then a else On(ss[j], a.c, a.free)
  {
    Moved(ss, a.c, a.free)[i := a]
  }

  /** A write to one file keeps all of them sound and apart, and the contents of the others. */
  lemma WriteKeeps(c: seq<Block>, free: set<int>, ss: seq<Snapshot>, i: nat, a: Snapshot)
    requires Together(c, free, ss) && i < |ss| && Intact(a) && Grows(ss[i], a) && a.sector == ss[i].sector
    ensures Together(a.c, a.free, Rebased(ss, i, a)) && Held(Rebased(ss, i, a)) == Held(ss)[i := Contents(a)]
  {
    var r := Rebased(ss, i, a);
    forall j | 0 <= j < |ss| && j != i
      ensures Intact(r[j]) && Contents(r[j]) == Contents(ss[j]) && DisjointFiles(a, r[j])
    {
      AnyTwoDisjoint(c, free, ss, i, j);
      OtherFileKept(ss[i], a, ss[j]);
    }
    forall j, k | 0 <= j < k < |ss| ensures DisjointFiles(r[j], r[k]) {
      if j != i && k != i {
        assert DisjointFiles(ss[j], ss[k]);
      }
    }
    assert Held(r) == Held(ss)[i := Contents(a)];
  }

  /** Removing a file frees sectors of no other. */
  lemma RemoveKeeps(c: seq<Block>, free: set<int>, ss: seq<Snapshot>, i: nat, free': set<int>)
    requires Together(c, free, ss) && i < |ss| && free' == free + Returned(ss[i])
    ensures Together(c, free', Moved(Except(ss, i), c, free'))
    ensures Held(Moved(Except(ss, i), c, free')) == Except(Held(ss), i)
  {
    var r := Except(ss, i);
    TogetherWithout(c, free, ss, i);
    ApartFromRest(c, free, ss, i);
    LostSectors(ss[i]);
    forall j | 0 <= j < |r| ensures Kept(r[j], c, free') {
      OtherFreed(r[j], Returned(ss[i]));
    }
    MovedTogether(c, free, r, c, free');
  }

  // ----- the objects -----

  /** Different inodes, all on one volume. */
  ghost predicate OnVolume(files: seq<Inode>, v: Volume) {
    && (forall i :: 0 <= i < |files| ==> files[i].v == v)
    && (forall i, j :: 0 <= i < j < |files| ==> files[i] != files[j])
  }

  ghost function Snapshots(files: seq<Inode>, v: Volume): (ss: seq<Snapshot>)
    requires OnVolume(files, v)
    reads files, v, v.cache
    ensures |ss| == |files| && forall i :: 0 <= i < |files| ==> ss[i] == files[i].Now()
  {
    seq(|files|, i requires 0 <= i < |files| reads files, v, v.cache => files[i].Now())
  }

  /** Sound and pairwise disjoint files on a sound volume. */
  ghost predicate AllTogether(files: seq<Inode>, v: Volume)
    requires OnVolume(files, v)
    reads files, v, v.cache
  {
    Together(v.cache.image, v.free, Snapshots(files, v))
  }

  /** `inode_write_at` on file `i`: its snapshot changes, the others are seen on the new volume. */
  method Write(files: seq<Inode>, v: Volume, i: nat, f: Inode, buffer: seq<Byte>, offset: nat)
    requires OnVolume(files, v) && v.Valid() && i < |files| && f == files[i] && Intact(f.Now())
    requires f.denyWriteCnt == 0 && SectorsFor(offset + |buffer|) <= MAX_SECTORS
    requires Spare(f.Now(), End(offset, buffer)) >= 0 || End(offset, buffer) <= f.data.length
    modifies f`data, f`lay, v`free, v.cache, v.cache.entries
    ensures v.Valid() && Becomes(old(f.Now()), f.Now(), Step(old(f.File()), offset, buffer))
    ensures Snapshots(files, v) == Rebased(old(Snapshots(files, v)), i, f.Now())
  {
    ghost var ss := Snapshots(files, v);
    var written := f.WriteAt(buffer, offset);
    assert forall j :: 0 <= j < |files| && j != i ==> files[j] != f;
    assert Snapshots(files, v) == Rebased(ss, i, f.Now());
  }

  /** The same beside other files: all stay sound and apart, and no other file changes. */
  method WriteBeside(files: seq<Inode>, v: Volume, i: nat, f: Inode, buffer: seq<Byte>, offset: nat)
    requires OnVolume(files, v) && v.Valid() && AllTogether(files, v) && i < |files| && f == files[i]
    requires f.denyWriteCnt == 0 && SectorsFor(offset + |buffer|) <= MAX_SECTORS
    requires Spare(f.Now(), End(offset, buffer)) >= 0 || End(offset, buffer) <= f.data.length
    modifies f`data, f`lay, v`free, v.cache, v.cache.entries
    ensures v.Valid() && AllTogether(files, v) && Becomes(old(f.Now()), f.Now(), Step(old(f.File()), offset, buffer))
    ensures Held(Snapshots(files, v)) == Held(old(Snapshots(files, v)))[i := Step(old(f.File()), offset, buffer)]
  {
    ghost var c, free, ss := v.cache.image, v.free, Snapshots(files, v);
    Write(files, v, i, f, buffer, offset);
    WriteKeeps(c, free, ss, i, f.Now());
  }

  /** One more object. */
  lemma SnapshotsWith(files: seq<Inode>, v: Volume, f: Inode)
    requires OnVolume(files, v) && f.v == v && f !in files
    ensures OnVolume(files + [f], v) && Snapshots(files + [f], v) == Snapshots(files, v) + [f.Now()]
  {
    var more := files + [f];
    assert OnVolume(more, v);
    assert Snapshots(more, v) == Snapshots(files, v) + [f.Now()];
  }

  /** Creating and opening a file: the others are seen on the new volume. */
  method New(files: seq<Inode>, v: Volume, length: nat) returns (f: Inode)
    requires OnVolume(files, v) && v.Valid()
    requires SectorsFor(length) <= MAX_SECTORS && |v.free| >= Cost(SectorsFor(length)) + 1
    modifies v`free, v.cache, v.cache.entries
    ensures fresh(f) && f.v == v && v.Valid() && Intact(f.Now()) && f.File() == Blank(length) && Fresh(f)
    ensures Untouched(old(v.cache.image), v.cache.image, Footprint(f.Now())) && Accounted(f.Now(), old(v.free))
    ensures Snapshots(files, v) == Moved(old(Snapshots(files, v)), v.cache.image, v.free)
  {
    ghost var ss := Snapshots(files, v);
    f := NewFile(v, length);
    assert Snapshots(files, v) == Moved(ss, v.cache.image, v.free);
  }

  /** Opened once, writable, in a sector of its own. */
  ghost predicate Fresh(f: Inode)
    reads f
  {
    f.openCnt == 1 && f.denyWriteCnt == 0 && f.sector > 0
  }

  /** Creating and opening a file beside the others. */
  method CreateBeside(files: seq<Inode>, v: Volume, length: nat) returns (f: Inode)
    requires OnVolume(files, v) && v.Valid() && AllTogether(files, v)
    requires SectorsFor(length) <= MAX_SECTORS && |v.free| >= Cost(SectorsFor(length)) + 1
    modifies v`free, v.cache, v.cache.entries
    ensures fresh(f) && OnVolume(files + [f], v) && v.Valid() && AllTogether(files + [f], v) && Fresh(f)
    ensures Held(Snapshots(files + [f], v)) == Held(old(Snapshots(files, v))) + [Blank(length)]
    ensures Intact(f.Now()) && Accounted(f.Now(), old(v.free))
  {
    ghost var c, free, ss := v.cache.image, v.free, Snapshots(files, v);
    f := New(files, v, length);
    CreateKeeps(c, free, ss, f.Now());
    SnapshotsWith(files, v, f);
  }

  /** The other objects. */
  lemma SnapshotsWithout(files: seq<Inode>, v: Volume, i: nat)
    requires OnVolume(files, v) && i < |files|
    ensures OnVolume(Except(files, i), v) && Snapshots(Except(files, i), v) == Except(Snapshots(files, v), i)
  {
    var rest := Except(files, i);
    assert OnVolume(rest, v);
    assert Snapshots(rest, v) == Except(Snapshots(files, v), i);
  }

  /** Removing and closing a file: the others are seen with its sectors freed. */
  method Remove(files: seq<Inode>, v: Volume, i: nat, f: Inode)
    requires OnVolume(files, v) && v.Valid() && i < |files| && f == files[i] && Intact(f.Now()) && Fresh(f)
    modifies f`openCnt, f`removed, v`free, v.cache`clock, v.cache`disk, v.cache.entries
    ensures v.Valid() && v.free == old(v.free) + old(Returned(f.Now()))
    ensures Snapshots(files, v) == Moved(old(Snapshots(files, v)), v.cache.image, v.free)
  {
    ghost var ss := Snapshots(files, v);
    Discard(f);
    assert Snapshots(files, v) == Moved(ss, v.cache.image, v.free);
  }

  lemma MovedExcept(ss: seq<Snapshot>, i: nat, c: seq<Block>, free: set<int>)
    requires i < |ss|
    ensures Moved(Except(ss, i), c, free) == Except(Moved(ss, c, free), i)
  {
  }

  /** Removing a file beside the others. */
  method RemoveBeside(files: seq<Inode>, v: Volume, i: nat, f: Inode)
    requires OnVolume(files, v) && v.Valid() && AllTogether(files, v) && i < |files| && f == files[i] && Fresh(f)
    modifies f`openCnt, f`removed, v`free, v.cache`clock, v.cache`disk, v.cache.entries
    ensures v.Valid() && v.free == old(v.free) + old(Returned(f.Now()))
    ensures OnVolume(Except(files, i), v) && AllTogether(Except(files, i), v)
    ensures Held(Snapshots(Except(files, i), v)) == Except(Held(old(Snapshots(files, v))), i)
  {
    ghost var c, free, ss := v.cache.image, v.free, Snapshots(files, v);
    Remove(files, v, i, f);
    RemoveKeeps(c, free, ss, i, v.free);
    SnapshotsWithout(files, v, i);
    MovedExcept(ss, i, c, v.free);
  }
}
