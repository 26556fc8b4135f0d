/** Files (pintos_pro3/src/filesys/inode.c): reading and writing at an offset refine the operations on
    bytes, on top of the allocation of sectors and the buffer cache. */
module InodeFile {
  import opened BufferCache
  import opened ByteFile
  import opened Guard
  import opened IndexSector
  import opened InodeAllocation
  import opened InodeLayout
  import opened Lists
  import opened Machine
  import opened Volume

  // ----- the bytes of a list of sectors -----

  ghost predicate OnDevice(c: seq<Block>, data: seq<int>) {
    forall k :: 0 <= k < |data| ==> 0 <= data[k] < |c|
  }

  /** Byte `j` of the sectors listed in `data`. */
  ghost function ByteAt(c: seq<Block>, data: seq<int>, j: int): Byte
    requires OnDevice(c, data) && 0 <= j < 512 * |data|
  {
    c[data[j / 512]][j % 512]
  }

  ghost function Stored(c: seq<Block>, data: seq<int>): (f: seq<Byte>)
    requires OnDevice(c, data)
    ensures |f| == 512 * |data|
  {
    seq(512 * |data|, j requires 0 <= j < 512 * |data| => ByteAt(c, data, j))
  }

  // ----- the inode as stored in its own sector -----

  predicate Storable(id: InodeDisk) {
    id.length < B32 && Words32(id)
  }

  function PackInode(id: InodeDisk): Block
    requires Storable(id)
  {
    Pack([id.length] + id.direct + [id.indirect, id.doubly, MAGIC])
  }

  function UnpackInode(b: Block): InodeDisk {
    var ws := Words(b);
    InodeDisk(ws[0], ws[1..125], ws[125], ws[126])
  }

  lemma InodeRoundTrip(id: InodeDisk)
    requires Storable(id)
    ensures UnpackInode(PackInode(id)) == id
  {
    var ws := [id.length] + id.direct + [id.indirect, id.doubly, MAGIC];
    WordsPack(ws);
    assert ws[1..125] == id.direct;
  }

  /** The words of an inode's sector, in order. */
  lemma InodeOnDisk(id: InodeDisk)
    requires Storable(id)
    ensures var ws := Words(PackInode(id));
            && ws[0] == id.length && ws[125] == id.indirect && ws[126] == id.doubly && ws[127] == MAGIC
            && forall i :: 0 <= i < DIRECT ==> ws[1 + i] == id.direct[i]
  {
    WordsPack([id.length] + id.direct + [id.indirect, id.doubly, MAGIC]);
  }

  lemma GoodStorable(c: seq<Block>, free: set<int>, id: InodeDisk, lay: Layout)
    requires Good(c, free, id, lay) && |c| <= B32 && SectorsFor(id.length) <= |lay.data|
    ensures Storable(id) && OnDevice(c, lay.data)
  {
    OwnedParts(c, free, id, lay);
    GoodWords(c, free, id, lay);
  }

  // ----- sector lookup -----

  /** The entry found through direct, indirect or doubly indirect tables is the right data sector. */
  lemma LookupIs(c: seq<Block>, id: InodeDisk, lay: Layout, k: nat)
    requires Rep(c, id, lay) && k < |lay.data|
    ensures k < 124 ==> id.direct[k] == lay.data[k]
    ensures 124 <= k < 252 ==> 0 < id.indirect < |c| && Words(c[id.indirect])[k - 124] == lay.data[k]
    ensures k >= 252 ==> 0 < id.doubly < |c| && Words(c[id.doubly])[(k - 252) / 128] == lay.subs[(k - 252) / 128]
    ensures k >= 252 ==> 0 < lay.subs[(k - 252) / 128] < |c|
    ensures k >= 252 ==> Words(c[lay.subs[(k - 252) / 128]])[(k - 252) % 128] == lay.data[k]
  {
    if k >= 252 {
      var a, ds := (k - 252) / 128, Double(lay.data);
      assert IndexRep(c, lay.subs[a], Group(ds, a));
      assert Group(ds, a)[(k - 252) % 128] == ds[k - 252];
    }
  }

  /** Distinct file sectors live in distinct device sectors, none of them an index sector. */
  lemma MappingInjective(c: seq<Block>, free: set<int>, id: InodeDisk, lay: Layout)
    requires Good(c, free, id, lay)
    ensures forall i :: 0 <= i < |lay.data| ==> 0 < lay.data[i] < |c| && lay.data[i] !in free
    ensures forall i :: 0 <= i < |lay.data| ==>
              lay.data[i] != id.indirect && lay.data[i] != id.doubly && lay.data[i] !in lay.subs
    ensures forall i, j :: 0 <= i < j < |lay.data| ==> lay.data[i] != lay.data[j]
  {
    OwnedParts(c, free, id, lay);
    forall i | 0 <= i < |lay.data|
      ensures lay.data[i] != id.indirect && lay.data[i] != id.doubly && lay.data[i] !in lay.subs
    {
      var x := lay.data[i];
      assert x in Elems(lay.data);
    }
  }

  // ----- how steps change the file -----

  /** Growth keeps the old bytes and adds zeros. */
  lemma GrownFile(c0: seq<Block>, free0: set<int>, id0: InodeDisk, lay0: Layout, c1: seq<Block>, free1: set<int>,
                  id1: InodeDisk, lay1: Layout)
    requires Grew(c0, free0, id0, lay0, c1, free1, id1, lay1) && OnDevice(c0, lay0.data) && OnDevice(c1, lay1.data)
    ensures Stored(c1, lay1.data) == Extended(Stored(c0, lay0.data), 512 * |lay1.data|)
  {
    var d0, d1 := lay0.data, lay1.data;
    forall j | 0 <= j < 512 * |d1| ensures ByteAt(c1, d1, j) == if j < 512 * |d0| then ByteAt(c0, d0, j) else 0 {
      var k := j / 512;
      if k < |d0| {
        assert d1[k] == d0[k];
        var x := d0[k];
        assert x in Elems(d0);
      } else {
        assert d1[|d0|..][k - |d0|] == d1[k];
      }
    }
  }

  /** Index tables do not notice changes to other sectors. */
  lemma RepUntouched(c0: seq<Block>, c1: seq<Block>, free0: set<int>, free1: set<int>, id: InodeDisk, lay: Layout,
                     touched: set<int>)
    requires Good(c0, free0, id, lay) && Untouched(c0, c1, touched) && free1 !! Owns(id, lay)
    requires touched !! Owns(id, lay) - Elems(lay.data)
    ensures Good(c1, free1, id, lay)
  {
    OwnedParts(c0, free0, id, lay);
    OwnsIs(id, lay);
    assert id.indirect != 0 ==> id.indirect in Elems(Entry01(id.indirect));
    assert id.doubly != 0 ==> id.doubly in Elems(Entry01(id.doubly));
    forall a | 0 <= a < |lay.subs| ensures IndexRep(c1, lay.subs[a], Group(Double(lay.data), a)) {
      var x := lay.subs[a];
      assert x in Elems(lay.subs);
      assert IndexRep(c0, lay.subs[a], Group(Double(lay.data), a));
    }
    var own := Owned(id, lay);
    forall k | 0 <= k < |own| ensures own[k] !in free1 {
      var x := own[k];
      assert x in Owns(id, lay);
    }
  }

  function Patch(b: Block, ofs: nat, bytes: seq<Byte>): Block
    requires ofs + |bytes| <= 512
  {
    b[..ofs] + bytes + b[ofs + |bytes|..]
  }

  /** Replacing part of one data sector replaces exactly those bytes of the file. */
  lemma PatchedFile(c: seq<Block>, data: seq<int>, off: nat, bytes: seq<Byte>, j: int)
    requires OnDevice(c, data) && Distinct(data) && off % 512 + |bytes| <= 512 && off < 512 * |data|
    requires 0 <= j < 512 * |data|
    ensures var c' := c[data[off / 512] := Patch(c[data[off / 512]], off % 512, bytes)];
            && OnDevice(c', data)
            && ByteAt(c', data, j) == if off <= j < off + |bytes| then bytes[j - off] else ByteAt(c, data, j)
  {
    var k, o := off / 512, off % 512;
    if j / 512 == k {
      var b := Patch(c[data[k]], o, bytes);
      assert o <= j % 512 < o + |bytes| <==> off <= j < off + |bytes|;
    } else {
      assert data[j / 512] != data[k];
    }
  }

  /** A stretch of the file inside one sector is that stretch of the sector. */
  lemma StretchIs(c: seq<Block>, data: seq<int>, off: nat, chunk: nat)
    requires OnDevice(c, data) && off % 512 + chunk <= 512 && off + chunk <= 512 * |data| && chunk > 0
    ensures Stored(c, data)[off..off + chunk] == c[data[off / 512]][off % 512..off % 512 + chunk]
  {
    var f, b := Stored(c, data)[off..off + chunk], c[data[off / 512]][off % 512..off % 512 + chunk];
    forall i | 0 <= i < chunk ensures f[i] == b[i] {
      assert (off + i) / 512 == off / 512 && (off + i) % 512 == off % 512 + i;
    }
  }

  /** Bytes written so far: `image` is the device when the loop starts, `c` the device now. */
  ghost predicate Writing(image: seq<Block>, c: seq<Block>, data: seq<int>, offset: nat, off: nat, buf: seq<Byte>) {
    && OnDevice(image, data) && OnDevice(c, data) && Untouched(image, c, Elems(data))
    && offset <= off <= offset + |buf|
    && forall j :: 0 <= j < 512 * |data| ==>
         ByteAt(c, data, j) == if offset <= j < off then buf[j - offset] else ByteAt(image, data, j)
  }

  lemma WritingStep(image: seq<Block>, c: seq<Block>, c': seq<Block>, data: seq<int>,
                    offset: nat, off: nat, buf: seq<Byte>, bytes: seq<Byte>, chunk: nat)
    requires Writing(image, c, data, offset, off, buf) && Distinct(data)
    requires off % 512 + chunk <= 512 && off + chunk <= offset + |buf| && off < 512 * |data|
    requires bytes == buf[off - offset..]
    requires var s := data[off / 512]; c' == c[s := Patch(c[s], off % 512, bytes[..chunk])]
    ensures Writing(image, c', data, offset, off + chunk, buf)
  {
    var s := data[off / 512];
    assert s in Elems(data);
    forall j | 0 <= j < 512 * |data|
      ensures ByteAt(c', data, j) == if offset <= j < off + chunk then buf[j - offset] else ByteAt(image, data, j)
    {
      PatchedFile(c, data, off, bytes[..chunk], j);
    }
  }

  lemma WrittenFile(image: seq<Block>, c: seq<Block>, data: seq<int>, offset: nat, buf: seq<Byte>)
    requires Writing(image, c, data, offset, offset + |buf|, buf) && offset + |buf| <= 512 * |data|
    ensures Stored(c, data) == Overlay(Stored(image, data), offset, buf)
  {
    var f, g := Stored(c, data), Overlay(Stored(image, data), offset, buf);
    forall j | 0 <= j < 512 * |data| ensures f[j] == g[j] {
      assert f[j] == ByteAt(c, data, j);
    }
  }

  // ----- soundness after growth and after writing -----

  /** The tree is sound and reaches the length, and the inode's own sector is in use, apart from the
      tree, and holds the current inode. */
  ghost predicate Sound(c: seq<Block>, free: set<int>, sector: int, id: InodeDisk, lay: Layout) {
    && Good(c, free, id, lay) && SectorsFor(id.length) <= |lay.data|
    && OnDevice(c, lay.data) && Storable(id)
    && 0 <= sector < |c| && sector !in free && sector !in Owns(id, lay) && c[sector] == PackInode(id)
  }

  /** Writing a sector outside the tree changes neither the tree nor the file. */
  lemma HomeWritten(c1: seq<Block>, c2: seq<Block>, free: set<int>, sector: int, id: InodeDisk, lay: Layout)
    requires Good(c1, free, id, lay) && OnDevice(c1, lay.data) && sector !in Owns(id, lay)
    requires Untouched(c1, c2, {sector})
    ensures Good(c2, free, id, lay) && OnDevice(c2, lay.data) && Stored(c2, lay.data) == Stored(c1, lay.data)
  {
    assert free !! Owns(id, lay) by {
      NewIsApart(c1, free, Owned(id, lay), free);
      assert Elems(Owned(id, lay)) == Owns(id, lay);
    }
    RepUntouched(c1, c2, free, free, id, lay, {sector});
    assert sector !in Elems(lay.data) by {
      OwnsIs(id, lay);
    }
    SameFile(c1, c2, lay.data, {sector});
  }

  /** Storing the grown inode in its own sector completes a growth step. */
  lemma GrownSound(c0: seq<Block>, free0: set<int>, sector: int, id0: InodeDisk, lay0: Layout,
                   c1: seq<Block>, free1: set<int>, id1: InodeDisk, lay1: Layout, c2: seq<Block>)
    requires Sound(c0, free0, sector, id0, lay0)
    requires Good(c1, free1, id1, lay1) && SectorsFor(id1.length) <= |lay1.data|
    requires Grew(c0, free0, id0.(length := id1.length), lay0, c1, free1, id1, lay1)
    requires Storable(id1) && OnDevice(c1, lay1.data) && c2 == c1[sector := PackInode(id1)]
    ensures Sound(c2, free1, sector, id1, lay1)
    ensures Stored(c2, lay1.data) == Extended(Stored(c0, lay0.data), 512 * |lay1.data|)
  {
    var idm := id0.(length := id1.length);
    GrownFile(c0, free0, idm, lay0, c1, free1, id1, lay1);
    assert Owned(idm, lay0) == Owned(id0, lay0);
    assert sector !in Owns(id1, lay1);
    HomeWritten(c1, c2, free1, sector, id1, lay1);
  }

  /** A file does not notice changes to sectors that are not its data. */
  lemma SameFile(c0: seq<Block>, c1: seq<Block>, data: seq<int>, touched: set<int>)
    requires Untouched(c0, c1, touched) && touched !! Elems(data) && OnDevice(c0, data)
    ensures OnDevice(c1, data) && Stored(c1, data) == Stored(c0, data)
  {
    forall j | 0 <= j < 512 * |data| ensures ByteAt(c1, data, j) == ByteAt(c0, data, j) {
      var x := data[j / 512];
      assert x in Elems(data);
    }
  }

  lemma WrittenSound(c0: seq<Block>, c1: seq<Block>, free: set<int>, sector: int, id: InodeDisk, lay: Layout,
                     offset: nat, off: nat, buf: seq<Byte>)
    requires Sound(c0, free, sector, id, lay) && Writing(c0, c1, lay.data, offset, off, buf)
    ensures Sound(c1, free, sector, id, lay)
  {
    OwnedParts(c0, free, id, lay);
    OwnsIs(id, lay);
    RepUntouched(c0, c1, free, free, id, lay, Elems(lay.data)) by {
      NewIsApart(c0, free, Owned(id, lay), free);
      assert Elems(Owned(id, lay)) == Owns(id, lay);
    }
    assert sector !in Elems(lay.data);
  }

  /** Everything the meaning of an inode depends on: device, free map, its sector, its contents and
      its layout. */
  datatype Snapshot = Snapshot(c: seq<Block>, free: set<int>, sector: int, id: InodeDisk, lay: Layout)

  /** Free sectors left over when the file has grown to `length`; negative if there are too few. */
  ghost function Spare(s: Snapshot, length: nat): int {
    |s.free| - (Cost(SectorsFor(length)) - Cost(|s.lay.data|))
  }

  /** A sound inode. Proofs unfold the definition only where they call `IntactIs`. */
  ghost predicate Intact(s: Snapshot) {
    forall t :: Is(t, s) ==> Sound(t.c, t.free, t.sector, t.id, t.lay)
  }

  lemma IntactIs(s: Snapshot)
    ensures Intact(s) <==> Sound(s.c, s.free, s.sector, s.id, s.lay)
  {
    assert Is(s, s);
  }

  /** The bytes of its sectors and its length. */
  ghost function Contents(s: Snapshot): (f: ByteFile)
    requires Intact(s)
    ensures Fits(f) && f.length == s.id.length && |f.stored| == 512 * |s.lay.data|
  {
    IntactIs(s);
    ByteFile(Stored(s.c, s.lay.data), s.id.length)
  }

  /** Sectors move only from the free map to the inode, earlier file sectors keep their place, and
      no sector changes but the inode's own. */
  ghost predicate Grown(s0: Snapshot, s1: Snapshot) {
    && s1.free <= s0.free && s1.free + Owns(s1.id, s1.lay) == s0.free + Owns(s0.id, s0.lay)
    && Extends(s0.lay.data, s1.lay.data)
    && Untouched(s0.c, s1.c, Owns(s1.id, s1.lay) + {s1.sector})
  }

  /** The same, unfolded only where a proof calls `GrowsIs`. */
  ghost predicate Grows(s0: Snapshot, s1: Snapshot) {
    forall t :: Is(t, s1) ==> Grown(s0, t)
  }

  lemma GrowsIs(s0: Snapshot, s1: Snapshot)
    ensures Grows(s0, s1) <==> Grown(s0, s1)
  {
    assert Is(s1, s1);
  }

  /** The inode is sound, holds `file`, and nothing else was disturbed. */
  ghost predicate Becomes(s0: Snapshot, s1: Snapshot, file: ByteFile) {
    Intact(s1) && Contents(s1) == file && Grows(s0, s1)
  }

  lemma Stays(s: Snapshot)
    requires Intact(s)
    ensures Becomes(s, s, Resized(Contents(s), s.id.length))
  {
    ResizedSame(Contents(s));
    GrowsIs(s, s);
  }

  /** Allocating for another length and storing the inode resizes the file. */
  lemma ResizedTo(s0: Snapshot, c1: seq<Block>, s1: Snapshot)
    requires Intact(s0) && s1.sector == s0.sector && Storable(s1.id)
    requires OnDevice(c1, s1.lay.data)
    requires GrownTo(Tree(s0.c, s0.free, s0.id.(length := s1.id.length), s0.lay),
                     Tree(c1, s1.free, s1.id, s1.lay), SectorsFor(s1.id.length))
    requires s1.sector < |c1| && s1.c == c1[s1.sector := PackInode(s1.id)]
    ensures Becomes(s0, s1, Resized(Contents(s0), s1.id.length))
  {
    IntactIs(s0);
    IntactIs(s1);
    GrowsIs(s0, s1);
    GrownSound(s0.c, s0.free, s0.sector, s0.id, s0.lay, c1, s1.free, s1.id, s1.lay, s1.c);
    assert Owned(s0.id.(length := s1.id.length), s0.lay) == Owned(s0.id, s0.lay);
    ExtendedAgain(Stored(s0.c, s0.lay.data), 512 * |s1.lay.data|, 512 * SectorsFor(s1.id.length));
  }

  /** Growth went past the last free sector: the new length is stored, no sector is free, and sector 0,
      the free map's own, is zeroed. */
  ghost predicate Overrun(s: Snapshot, length: nat) {
    && s.free == {} && s.id.length == length && Storable(s.id)
    && 0 <= s.sector < |s.c| && s.c[s.sector] == PackInode(s.id) && (s.sector > 0 ==> s.c[0] == Zeros())
  }

  lemma ShortEnough(length: nat)
    requires SectorsFor(length) <= MAX_SECTORS
    ensures length < B32
  {
  }

  /** Writing inside the file overlays it. */
  lemma Overwritten(s0: Snapshot, s1: Snapshot, s2: Snapshot, offset: nat, buf: seq<Byte>)
    requires Intact(s1) && Grows(s0, s1) && s2 == s1.(c := s2.c) && offset + |buf| <= s1.id.length
    requires Writing(s1.c, s2.c, s1.lay.data, offset, offset + |buf|, buf)
    ensures Becomes(s0, s2, ByteFile(Overlay(Contents(s1).stored, offset, buf), s1.id.length))
  {
    IntactIs(s1);
    IntactIs(s2);
    GrowsIs(s0, s1);
    GrowsIs(s0, s2);
    WrittenSound(s1.c, s2.c, s1.free, s1.sector, s1.id, s1.lay, offset, offset + |buf|, buf);
    WrittenFile(s1.c, s2.c, s1.lay.data, offset, buf);
    OwnsIs(s1.id, s1.lay);
  }

  // ----- what closing gives back -----

  /** The last close of a removed file gives back its own sector and what its length covers. */
  ghost function Returned(s: Snapshot): set<int> {
    {s.sector} + Covered(s.id, s.lay, SectorsFor(s.id.length))
  }

  /** The sectors the tables list beyond the length are lost. */
  ghost function Lost(s: Snapshot): set<int> {
    Owns(s.id, s.lay) - Covered(s.id, s.lay, SectorsFor(s.id.length))
  }

  /** What is lost is in use and apart from the free map for good, and it is as many sectors as the
      file costs beyond its length; nothing is lost exactly when the tables end with the length. */
  lemma LostSectors(s: Snapshot)
    requires Intact(s)
    ensures |Lost(s)| == Cost(|s.lay.data|) - Cost(SectorsFor(s.id.length))
    ensures Lost(s) == {} <==> |s.lay.data| == SectorsFor(s.id.length)
    ensures Lost(s) !! s.free + Returned(s) && Lost(s) + Returned(s) == Owns(s.id, s.lay) + {s.sector}
  {
    IntactIs(s);
    var n := SectorsFor(s.id.length);
    CoveredDisjoint(s.c, s.free, s.id, s.lay, n);
    OwnsCard(s.c, s.free, s.id, s.lay);
    OwnedCost(s.c, s.id, s.lay);
    OwnsCard(s.c, s.free, CoveredInode(s.id, n), CoveredLayout(s.lay, n));
    RemainsCard(Owns(s.id, s.lay), Covered(s.id, s.lay, n));
    CostStrict(n, |s.lay.data|);
  }

  lemma OwnsCard(c: seq<Block>, free: set<int>, id: InodeDisk, lay: Layout)
    requires Disjoint(c, free, Owned(id, lay))
    ensures |Owns(id, lay)| == |Owned(id, lay)| && Owns(id, lay) !! free
  {
    DistinctCard(Owned(id, lay));
    assert Elems(Owned(id, lay)) == Owns(id, lay);
    NewIsApart(c, free, Owned(id, lay), free);
  }

  lemma RemainsCard(all: set<int>, part: set<int>)
    requires part <= all
    ensures |all - part| == |all| - |part| && (all - part == {} <==> |part| == |all|)
  {
    assert all == part + (all - part);
  }

  lemma CostStrict(m: nat, n: nat)
    requires m <= n
    ensures Cost(n) - Cost(m) >= n - m
  {
  }

  class Inode {
    const sector: int
    const v: Volume
    var data: InodeDisk
    var openCnt: nat
    var denyWriteCnt: nat
    var removed: bool
    ghost var lay: Layout

    ghost function Now(): Snapshot
      reads this, v, v.cache
    {
      Snapshot(v.cache.image, v.free, sector, data, lay)
    }

    ghost predicate Valid()
      reads this, v, v.cache, v.cache.entries
    {
      v.Valid() && Intact(Now())
    }

    /** `inode_open` of an inode that is not open yet. */
    constructor Open(vol: Volume, at: int, ghost id: InodeDisk, ghost layout: Layout)
      requires vol.Valid() && Intact(Snapshot(vol.cache.image, vol.free, at, id, layout))
      modifies vol.cache`clock, vol.cache`disk, vol.cache.entries
      ensures Valid() && v == vol && sector == at && data == id && lay == layout
      ensures openCnt == 1 && denyWriteCnt == 0 && !removed
    {
      IntactIs(Snapshot(vol.cache.image, vol.free, at, id, layout));
      v, sector, lay := vol, at, layout;
      openCnt, denyWriteCnt, removed := 1, 0, false;
      var block := vol.cache.Read(at);
      data := UnpackInode(block);
      InodeRoundTrip(id);
      new;
      IntactIs(Now());
    }

    /** The bytes of its sectors and its length. */
    ghost function File(): ByteFile
      requires Intact(Now())
      reads this, v, v.cache
    {
      Contents(Now())
    }

    /** `byte_to_sector`. */
    method ByteToSector(pos: int) returns (s: int)
      requires v.Valid() && Rep(v.cache.image, data, lay) && SectorsFor(data.length) <= |lay.data|
      modifies v.cache`clock, v.cache`disk, v.cache.entries
      ensures v.Valid()
      ensures s == if 0 <= pos < data.length then lay.data[pos / 512] else -1
    {
      if 0 <= pos < data.length {
        var index := pos / 512;
        LookupIs(v.cache.image, data, lay, index);
        if index < 124 {
          return data.direct[index];
        }
        if index < 124 + 128 {
          var block := v.cache.Read(data.indirect);
          return Words(block)[index - 124];
        }
        var level1, level2 := (index - 252) / 128, (index - 252) % 128;
        var block := v.cache.Read(data.doubly);
        block := v.cache.Read(Words(block)[level1]);
        return Words(block)[level2];
      }
      s := -1;
    }

    /** One turn of the loop of `inode_read_at`: the bytes of one sector, empty at the end of file. */
    method ReadChunk(left: nat, off: nat) returns (bytes: seq<Byte>)
      requires Valid() && left > 0
      modifies v.cache`clock, v.cache`disk, v.cache.entries
      ensures v.Valid()
      ensures off >= data.length ==> bytes == []
      ensures off < data.length ==> 0 < |bytes| == Min(left, Min(data.length - off, 512 - off % 512))
      ensures off < data.length ==> bytes == Visible(File())[off..off + |bytes|]
    {
      IntactIs(Now());
      var s := ByteToSector(off);
      var ofs := off % 512;
      var minLeft := Min(data.length - off, 512 - ofs);
      var chunk := Min(left, minLeft);
      if chunk <= 0 {
        return [];
      }
      ChunkIs(Now(), off, ofs, chunk, off + chunk);
      bytes := ReadPart(s, ofs, chunk);
    }

    /** Part of one sector: directly if it is the whole, otherwise through the bounce buffer. */
    method ReadPart(s: int, ofs: nat, chunk: nat) returns (bytes: seq<Byte>)
      requires v.Valid() && 0 <= s < |v.cache.image| && ofs + chunk <= 512
      modifies v.cache`clock, v.cache`disk, v.cache.entries
      ensures v.Valid() && bytes == v.cache.image[s][ofs..ofs + chunk]
    {
      var block := v.cache.Read(s);
      if ofs == 0 && chunk == 512 {
        assert block[0..512] == block;
        bytes := block;
      } else {
        bytes := block[ofs..ofs + chunk];
      }
    }

    /** `inode_read_at`: the bytes of the file from `offset`, up to `size` of them. */
    method ReadAt(size: nat, offset: nat) returns (buffer: seq<Byte>)
      requires Valid()
      modifies v.cache`clock, v.cache`disk, v.cache.entries
      ensures Valid() && File() == old(File())
      ensures buffer == Stretch(Visible(File()), offset, size)
    {
      buffer := [];
      ghost var file := Visible(File());
      var left, off := size, offset;
      while left > 0
        invariant v.Valid() && off == offset + |buffer| && left == size - |buffer| >= 0
        invariant buffer == Stretch(file, offset, |buffer|)
        decreases left
      {
        var bytes := ReadChunk(left, off);
        if |bytes| == 0 {
          StretchEnds(file, offset, |buffer|, size);
          break;
        }
        StretchNext(file, offset, buffer, bytes, off + |bytes|);
        buffer := buffer + bytes;
        left, off := left - |bytes|, off + |bytes|;
      }
    }

    /** The growing branch of `inode_write_at`: set the length, allocate, and store the inode. The new
        length may be 0, and sectors already allocated beyond the old one are not zeroed. With too few
        free sectors the new length is stored all the same. */
    method GrowTo(length: nat)
      requires Valid() && SectorsFor(length) <= MAX_SECTORS
      modifies this`data, this`lay, v`free, v.cache, v.cache.entries
      ensures v.Valid()
      ensures old(Spare(Now(), length)) >= 0 ==> Becomes(old(Now()), Now(), Resized(old(File()), length))
      ensures old(Spare(Now(), length)) < 0 ==> Overrun(Now(), length)
    {
      ghost var s0 := Now();
      ghost var image1 := AllocateTo(length);
      v.cache.Write(sector, PackInode(data));
      if Spare(s0, length) >= 0 {
        ResizedTo(s0, image1, Now());
      }
    }

    /** Set the length and allocate. */
    method AllocateTo(length: nat) returns (ghost image1: seq<Block>)
      requires Valid() && SectorsFor(length) <= MAX_SECTORS
      modifies this`data, this`lay, v`free, v.cache, v.cache.entries
      ensures v.Valid() && image1 == v.cache.image && 0 <= sector < |image1| == |old(v.cache.image)|
      ensures data.length == length && Storable(data)
      ensures var t0 := Tree(old(v.cache.image), old(v.free), old(data).(length := length), old(lay));
              var t1 := Tree(image1, v.free, data, lay);
              if old(Spare(Now(), length)) >= 0 then GrownTo(t0, t1, SectorsFor(length)) && OnDevice(image1, lay.data)
              else Exhausted(image1, v.free)
    {
      IntactIs(Now());
      ghost var enough := Spare(Now(), length) >= 0;
      data := data.(length := length);
      var ok;
      ok, data, lay := Allocate(v, data, lay);
      if enough {
        GoodStorable(v.cache.image, v.free, data, lay);
      }
      ShortEnough(length);
      image1 := v.cache.image;
    }

    /** One turn of the loop of `inode_write_at`: at most one sector, through the bounce buffer
        unless a whole sector is written. */
    method WriteChunk(bytes: seq<Byte>, off: nat) returns (chunk: nat)
      requires v.Valid() && Rep(v.cache.image, data, lay) && SectorsFor(data.length) <= |lay.data|
      requires OnDevice(v.cache.image, lay.data)
      requires 0 < |bytes| && off + |bytes| <= data.length
      modifies v.cache, v.cache.entries
      ensures v.Valid() && chunk == Min(|bytes|, 512 - off % 512)
      ensures var s := lay.data[off / 512];
              v.cache.image == old(v.cache.image)[s := Patch(old(v.cache.image)[s], off % 512, bytes[..chunk])]
    {
      var s := ByteToSector(off);
      var ofs := off % 512;
      var sectorLeft := 512 - ofs;
      var minLeft := Min(data.length - off, sectorLeft);
      chunk := Min(|bytes|, minLeft);
      if ofs == 0 && chunk == 512 {
        assert Patch(v.cache.image[s], 0, bytes[..512]) == bytes[..512];
        v.cache.Write(s, bytes[..512]);
      } else {
        var bounce: Block := Zeros();
        if ofs > 0 || chunk < sectorLeft {
          bounce := v.cache.Read(s);
        }
        v.cache.Write(s, Patch(bounce, ofs, bytes[..chunk]));
      }
    }

    /** The write loop of `inode_write_at`, once the file is long enough. */
    method WriteLoop(buffer: seq<Byte>, offset: nat) returns (written: nat)
      requires Valid() && offset + |buffer| <= data.length
      modifies v.cache, v.cache.entries
      ensures v.Valid() && written == |buffer|
      ensures Writing(old(v.cache.image), v.cache.image, lay.data, offset, offset + |buffer|, buffer)
    {
      IntactIs(Now());
      OwnedParts(v.cache.image, v.free, data, lay);
      var size, off := |buffer|, offset;
      written := 0;
      while size > 0
        invariant v.Valid() && 0 <= size == |buffer| - written && off == offset + written
        invariant Writing(old(v.cache.image), v.cache.image, lay.data, offset, off, buffer)
        decreases size
      {
        WrittenSound(old(v.cache.image), v.cache.image, v.free, sector, data, lay, offset, off, buffer);
        ghost var image1 := v.cache.image;
        var bytes := buffer[written..];
        var chunk := WriteChunk(bytes, off);
        WritingStep(old(v.cache.image), image1, v.cache.image, lay.data, offset, off, buffer, bytes, chunk);
        size, off, written := size - chunk, off + chunk, written + chunk;
      }
    }

    /** `inode_write_at`: the bytes change as the step on byte files says; sectors move only from the
        free map to this inode and nobody else's change. Denied writes change nothing. */
    method WriteAt(buffer: seq<Byte>, offset: nat) returns (written: nat)
      requires Valid() && SectorsFor(offset + |buffer|) <= MAX_SECTORS
      requires Spare(Now(), End(offset, buffer)) >= 0 || End(offset, buffer) <= data.length
      modifies this`data, this`lay, v`free, v.cache, v.cache.entries
      ensures v.Valid() && written == if denyWriteCnt > 0 then 0 else |buffer|
      ensures if denyWriteCnt > 0 then Now() == old(Now())
              else Becomes(old(Now()), Now(), Step(old(File()), offset, buffer))
    {
      if denyWriteCnt > 0 {
        return 0;
      }
      written := WriteAllowed(buffer, offset);
    }

    /** `inode_write_at` past the check for denied writes. */
    method WriteAllowed(buffer: seq<Byte>, offset: nat) returns (written: nat)
      requires Valid() && SectorsFor(offset + |buffer|) <= MAX_SECTORS
      requires Spare(Now(), End(offset, buffer)) >= 0 || End(offset, buffer) <= data.length
      modifies this`data, this`lay, v`free, v.cache, v.cache.entries
      ensures v.Valid() && written == |buffer| && Becomes(old(Now()), Now(), Step(old(File()), offset, buffer))
    {
      ghost var s0, f := Now(), File();
      var end := End(offset, buffer);
      Reach(end);
      written := Overwrite(buffer, offset, s0, f);
    }

    /** Whether a byte has a sector: `byte_to_sector` does not return -1. */
    method IsStored(pos: int) returns (stored: bool)
      requires Valid()
      modifies v.cache`clock, v.cache`disk, v.cache.entries
      ensures v.Valid() && (stored <==> 0 <= pos < data.length)
    {
      IntactIs(Now());
      EveryByteStored(Now());
      var s := ByteToSector(pos);
      stored := s != -1;
    }

    /** The test at the start of `inode_write_at`: grow unless the last byte to write exists. */
    method Reach(end: nat)
      requires Valid() && SectorsFor(end) <= MAX_SECTORS
      modifies this`data, this`lay, v`free, v.cache, v.cache.entries
      ensures v.Valid()
      ensures if old(Spare(Now(), end)) >= 0 || end <= old(data.length)
              then Becomes(old(Now()), Now(), Resized(old(File()), NewLength(old(data.length), end)))
              else Overrun(Now(), end)
    {
      var stored := IsStored(end - 1);
      if !stored {
        RoomForNone(Now());
        GrowTo(end);
      } else {
        Stays(Now());
      }
    }

    /** Writing inside the length to which the file has been resized. */
    method Overwrite(buffer: seq<Byte>, offset: nat, ghost s0: Snapshot, ghost f: ByteFile) returns (written: nat)
      requires v.Valid() && Becomes(s0, Now(), Resized(f, NewLength(f.length, End(offset, buffer))))
      modifies v.cache, v.cache.entries
      ensures v.Valid() && written == |buffer| && Becomes(s0, Now(), Step(f, offset, buffer))
    {
      written := WriteLoop(buffer, offset);
      Overwritten(s0, old(Now()), Now(), offset, buffer);
    }

    /** `inode_close`: the last close of a removed file gives back its sector and what its length
        covers. */
    method Close()
      requires Valid() && openCnt > 0 && (removed ==> sector > 0)
      modifies this`openCnt, v`free, v.cache`clock, v.cache`disk, v.cache.entries
      ensures v.Valid() && openCnt == old(openCnt) - 1
      ensures v.free == old(v.free) + if openCnt == 0 && removed then old(Returned(Now())) else {}
    {
      IntactIs(Now());
      openCnt := openCnt - 1;
      if openCnt == 0 && removed {
        v.Release(sector);
        ReleasedHome(v.cache.image, old(v.free), sector, data, lay);
        var ok := Deallocate(v, data, lay);
      }
    }
  }

  /** A stretch of the file inside one sector, read from that sector. */
  lemma ChunkIs(s: Snapshot, off: nat, ofs: nat, chunk: nat, end: nat)
    requires Intact(s) && ofs == off % 512 && chunk > 0 && ofs + chunk <= 512 && end == off + chunk <= s.id.length
    ensures off / 512 < |s.lay.data| && 0 <= s.lay.data[off / 512] < |s.c|
    ensures Visible(Contents(s))[off..end] == s.c[s.lay.data[off / 512]][ofs..ofs + chunk]
  {
    IntactIs(s);
    StretchIs(s.c, s.lay.data, off, chunk);
    Inside(Stored(s.c, s.lay.data), s.id.length, off, end);
  }

  lemma Inside(bytes: seq<Byte>, length: nat, off: nat, end: nat)
    requires off <= end <= length <= |bytes|
    ensures bytes[..length][off..end] == bytes[off..end]
  {
  }

  lemma RoomForNone(s: Snapshot)
    ensures Spare(s, 0) >= 0
  {
  }

  lemma EveryByteStored(s: Snapshot)
    requires Intact(s)
    ensures forall j :: 0 <= j < s.id.length ==> j / 512 < |s.lay.data| && s.lay.data[j / 512] != -1
  {
    IntactIs(s);
  }

  lemma ReleasedHome(c: seq<Block>, free: set<int>, sector: int, id: InodeDisk, lay: Layout)
    requires Good(c, free, id, lay) && sector !in Owns(id, lay)
    ensures Good(c, free + {sector}, id, lay)
  {
    var own := Owned(id, lay);
    forall k | 0 <= k < |own| ensures own[k] !in free + {sector} {
      var x := own[k];
      assert x in Owns(id, lay);
    }
  }

  /** `inode_create`: a zero-filled file of the given length in a sector the caller has taken. */
  method Create(v: Volume, sector: int, length: nat) returns (ok: bool, ghost id: InodeDisk, ghost lay: Layout)
    requires v.Valid() && 0 <= sector < |v.cache.image| && sector !in v.free
    requires SectorsFor(length) <= MAX_SECTORS
    modifies v`free, v.cache, v.cache.entries
    ensures ok && v.Valid()
    ensures if |old(v.free)| >= Cost(SectorsFor(length))
            then Created(old(v.cache.image), old(v.free), Snapshot(v.cache.image, v.free, sector, id, lay), length)
            else Overrun(Snapshot(v.cache.image, v.free, sector, id, lay), length)
  {
    var blank := BlankInode(length);
    ghost var none := Layout([], []);
    BlankGood(v.cache.image, v.free, length);
    var disk;
    ok, disk, lay := Allocate(v, blank, none);
    id := disk;
    ShortEnough(length);
    ghost var image1 := v.cache.image;
    if |old(v.free)| >= Cost(SectorsFor(length)) {
      GoodStorable(image1, v.free, disk, lay);
      CreatedSound(old(v.cache.image), old(v.free), image1, v.free, sector, disk, lay);
    }
    v.cache.Write(sector, PackInode(disk));
  }

  /** A new zero-filled file made of free sectors; nothing else was touched. */
  ghost predicate Created(c0: seq<Block>, free0: set<int>, s: Snapshot, length: nat) {
    && Intact(s) && Contents(s) == Blank(length) && s.free + Owns(s.id, s.lay) == free0
    && Untouched(c0, s.c, Footprint(s))
  }

  function BlankInode(length: nat): InodeDisk {
    InodeDisk(length, seq(DIRECT, _ => 0), 0, 0)
  }

  lemma CreatedSound(c0: seq<Block>, free0: set<int>, c1: seq<Block>, free1: set<int>, sector: int, id: InodeDisk,
                     lay: Layout)
    requires GrownTo(Tree(c0, free0, BlankInode(id.length), Layout([], [])), Tree(c1, free1, id, lay),
                     SectorsFor(id.length))
    requires Owns(BlankInode(id.length), Layout([], [])) == {} && Storable(id) && OnDevice(c1, lay.data)
    requires 0 <= sector < |c1| && sector !in free0
    ensures Created(c0, free0, Snapshot(c1[sector := PackInode(id)], free1, sector, id, lay), id.length)
  {
    var c2 := c1[sector := PackInode(id)];
    GrownFile(c0, free0, BlankInode(id.length), Layout([], []), c1, free1, id, lay);
    AllZero(Stored(c0, []), 512 * |lay.data|);
    HomeWritten(c1, c2, free1, sector, id, lay);
    IntactIs(Snapshot(c2, free1, sector, id, lay));
  }

  lemma AllZero(empty: seq<Byte>, n: nat)
    requires |empty| == 0
    ensures Extended(empty, n) == ZeroBytes(n)
  {
  }

  lemma BlankGood(c: seq<Block>, free: set<int>, length: nat)
    ensures Good(c, free, BlankInode(length), Layout([], [])) && Owns(BlankInode(length), Layout([], [])) == {}
  {
    assert Owned(BlankInode(length), Layout([], [])) == [];
  }

  // ----- other files -----

  /** All sectors of an inode: its own, its data and its index sectors. */
  ghost function Footprint(s: Snapshot): set<int> {
    Owns(s.id, s.lay) + {s.sector}
  }

  /** An inode seen on another device and free map. */
  ghost function On(b: Snapshot, c: seq<Block>, free: set<int>): Snapshot {
    Snapshot(c, free, b.sector, b.id, b.lay)
  }

  /** It is sound there too and holds the same. */
  ghost predicate Kept(b: Snapshot, c: seq<Block>, free: set<int>) {
    Intact(b) && Intact(On(b, c, free)) && Contents(On(b, c, free)) == Contents(b)
  }

  /** No sector in use is free. */
  lemma FootprintInUse(s: Snapshot)
    requires Intact(s)
    ensures s.free !! Footprint(s)
  {
    IntactIs(s);
    NewIsApart(s.c, s.free, Owned(s.id, s.lay), s.free);
    assert Elems(Owned(s.id, s.lay)) == Owns(s.id, s.lay);
  }

  /** Whatever one write does to its own inode, another file keeps its tree and its bytes, and the
      two stay apart. */
  lemma OtherFileKept(a0: Snapshot, a1: Snapshot, b: Snapshot)
    requires Intact(b) && b.c == a0.c && b.free == a0.free && a1.sector == a0.sector
    requires Grows(a0, a1) && Footprint(a0) !! Footprint(b)
    ensures Kept(b, a1.c, a1.free) && Footprint(a1) !! Footprint(On(b, a1.c, a1.free))
  {
    GrowsIs(a0, a1);
    FootprintInUse(b);
    assert Footprint(a1) <= a0.free + Footprint(a0);
    ApartIsKept(a1, b);
  }

  /** A file does not notice what happens to the sectors of an inode apart from it. */
  lemma ApartIsKept(a: Snapshot, b: Snapshot)
    requires Intact(b) && Untouched(b.c, a.c, Footprint(a)) && a.free <= b.free && Footprint(a) !! Footprint(b)
    ensures Kept(b, a.c, a.free)
  {
    IntactIs(b);
    IntactIs(On(b, a.c, a.free));
    FootprintInUse(b);
    RepUntouched(b.c, a.c, b.free, a.free, b.id, b.lay, Footprint(a));
    OwnsIs(b.id, b.lay);
    SameFile(b.c, a.c, b.lay.data, Footprint(a));
  }

  /** Sectors freed elsewhere leave a file alone. */
  lemma OtherFreed(b: Snapshot, freed: set<int>)
    requires Intact(b) && freed !! Footprint(b)
    ensures Kept(b, b.c, b.free + freed)
  {
    IntactIs(b);
    IntactIs(On(b, b.c, b.free + freed));
    FootprintInUse(b);
    RepUntouched(b.c, b.c, b.free, b.free + freed, b.id, b.lay, {});
  }
}
