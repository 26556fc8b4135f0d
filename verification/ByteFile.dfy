/** Files without sectors: what writing (pintos_pro3/src/filesys/inode.c) does to the bytes of a file
    and to the bytes its sectors hold beyond its end. */
module ByteFile {
  import opened InodeAllocation
  import opened InodeLayout
  import opened Machine

  // ----- byte arrays -----

  /** Writing `buf` at `offset` into a growable byte array; a gap reads as zero. */
  function Overlay(file: seq<Byte>, offset: nat, buf: seq<Byte>): (f: seq<Byte>)
    ensures |f| == Larger(offset + |buf|, |file|)
  {
    seq(Larger(offset + |buf|, |file|), j requires 0 <= j =>
      if offset <= j < offset + |buf| then buf[j - offset]
      else if j < |file| then file[j] else 0)
  }

  /** At least `n` bytes, zeros at the end. */
  function Extended(file: seq<Byte>, n: nat): (f: seq<Byte>)
    ensures |f| == Larger(n, |file|) && forall j :: 0 <= j < |f| ==> f[j] == if j < |file| then file[j] else 0
  {
    Overlay(file, n, [])
  }

  /** Up to `size` bytes from `offset`, cut at the end of the file. */
  function Stretch(file: seq<Byte>, offset: nat, size: nat): seq<Byte> {
    if offset >= |file| then [] else file[offset..Min(offset + size, |file|)]
  }

  lemma WholeStretch(file: seq<Byte>, size: nat)
    requires |file| <= size
    ensures Stretch(file, 0, size) == file
  {
  }

  lemma StretchNext(file: seq<Byte>, offset: nat, front: seq<Byte>, bytes: seq<Byte>, end: nat)
    requires front == Stretch(file, offset, |front|) && end == offset + |front| + |bytes| <= |file|
    requires bytes == file[offset + |front|..end]
    ensures front + bytes == Stretch(file, offset, |front + bytes|)
  {
  }

  /** Nothing comes after the end of the file. */
  lemma StretchEnds(file: seq<Byte>, offset: nat, n: nat, size: nat)
    requires offset + n >= |file| && n <= size
    ensures Stretch(file, offset, n) == Stretch(file, offset, size)
  {
  }

  function ZeroBytes(n: nat): (f: seq<Byte>)
    ensures |f| == n && forall j :: 0 <= j < n ==> f[j] == 0
  {
    seq(n, _ => 0)
  }

  /** Where a write ends. */
  function End(offset: nat, buffer: seq<Byte>): nat {
    offset + |buffer|
  }

  /** The length `inode_write_at` leaves behind. */
  function NewLength(length: nat, end: nat): nat {
    if 0 <= end - 1 < length then length else end
  }

  /** An empty write at the start of a nonempty file. */
  predicate Cuts(length: nat, end: nat) {
    end == 0 < length
  }

  /** The new length is the right one except for a write that cuts. */
  lemma NewLengthExact(length: nat, end: nat)
    ensures NewLength(length, end) == Larger(end, length) <==> !Cuts(length, end)
    ensures NewLength(5, 0) == 0
  {
  }

  // ----- files that may hold more than they show -----

  /** All bytes of a file's sectors, and the length. */
  datatype ByteFile = ByteFile(stored: seq<Byte>, length: nat)

  predicate Fits(f: ByteFile) {
    512 * SectorsFor(f.length) <= |f.stored|
  }

  /** The bytes users see. */
  function Visible(f: ByteFile): (bytes: seq<Byte>)
    requires Fits(f)
    ensures |bytes| == f.length
  {
    f.stored[..f.length]
  }

  /** A file of the given length, its sectors zeroed. */
  function Blank(length: nat): ByteFile {
    ByteFile(ZeroBytes(512 * SectorsFor(length)), length)
  }

  /** Sectors for the new length are added, zeroed; sectors already there stay as they are. */
  function Resized(f: ByteFile, length: nat): ByteFile {
    ByteFile(Extended(f.stored, 512 * SectorsFor(length)), length)
  }

  /** `inode_write_at` on the bytes. */
  function Step(f: ByteFile, offset: nat, buf: seq<Byte>): ByteFile {
    var r := Resized(f, NewLength(f.length, End(offset, buf)));
    r.(stored := Overlay(r.stored, offset, buf))
  }

  lemma StepFits(f: ByteFile, offset: nat, buf: seq<Byte>)
    requires Fits(f)
    ensures Fits(Step(f, offset, buf)) && Step(f, offset, buf).length == NewLength(f.length, End(offset, buf))
    ensures |Step(f, offset, buf).stored| == Larger(512 * SectorsFor(NewLength(f.length, End(offset, buf))), |f.stored|)
  {
  }

  /** The file takes up no sector beyond its length and is zero up to the end of its last sector. */
  predicate Tight(f: ByteFile) {
    |f.stored| == 512 * SectorsFor(f.length) && forall j :: f.length <= j < |f.stored| ==> f.stored[j] == 0
  }

  /** How many sectors the file costs beyond what its length does. */
  function Excess(f: ByteFile): int {
    Cost(|f.stored| / 512) - Cost(SectorsFor(f.length))
  }

  lemma ExcessOf(f: ByteFile, n: nat)
    requires |f.stored| == 512 * n
    ensures Excess(f) == Cost(n) - Cost(SectorsFor(f.length))
  {
  }

  /** None exactly when its sectors end with its length. */
  lemma ExcessExact(f: ByteFile)
    requires Fits(f)
    ensures Excess(f) >= 0 && (Excess(f) == 0 <==> |f.stored| / 512 == SectorsFor(f.length))
  {
  }

  /** No old byte hides in the gap between the end of the file and the offset. */
  predicate CleanGap(f: ByteFile, offset: nat) {
    forall j :: f.length <= j < offset && j < |f.stored| ==> f.stored[j] == 0
  }

  /** Every byte after a write: the written ones, then whatever the sectors hold, then zeros. */
  lemma StepBytes(f: ByteFile, offset: nat, buf: seq<Byte>, j: nat)
    requires Fits(f) && j < NewLength(f.length, End(offset, buf))
    ensures Fits(Step(f, offset, buf))
    ensures Visible(Step(f, offset, buf))[j]
            == if offset <= j < offset + |buf| then buf[j - offset] else if j < |f.stored| then f.stored[j] else 0
  {
    StepFits(f, offset, buf);
  }

  /** A write overlays the byte array exactly when it does not cut and the gap it opens is clean. */
  lemma StepIsOverlay(f: ByteFile, offset: nat, buf: seq<Byte>)
    requires Fits(f)
    ensures Fits(Step(f, offset, buf))
    ensures Visible(Step(f, offset, buf)) == Overlay(Visible(f), offset, buf)
            <==> !Cuts(f.length, End(offset, buf)) && CleanGap(f, offset)
  {
    StepFits(f, offset, buf);
    NewLengthExact(f.length, End(offset, buf));
    var now, plain := Visible(Step(f, offset, buf)), Overlay(Visible(f), offset, buf);
    if !Cuts(f.length, End(offset, buf)) {
      forall j | 0 <= j < |now| && !(f.length <= j < offset && j < |f.stored|) ensures now[j] == plain[j] {
        StepBytes(f, offset, buf, j);
      }
      forall j | f.length <= j < offset && j < |f.stored| ensures j < |now| && now[j] == f.stored[j] && plain[j] == 0 {
        StepBytes(f, offset, buf, j);
      }
    }
  }

  /** Files that never were cut stay tight, so that every gap they open is clean. */
  lemma TightStep(f: ByteFile, offset: nat, buf: seq<Byte>)
    requires Tight(f) && !Cuts(f.length, End(offset, buf))
    ensures Fits(f) && Tight(Step(f, offset, buf)) && CleanGap(f, offset)
  {
    NewLengthExact(f.length, End(offset, buf));
  }

  lemma PlainStep(f: ByteFile, offset: nat, buf: seq<Byte>)
    requires Tight(f) && Fits(f) && !Cuts(f.length, End(offset, buf))
    ensures Tight(Step(f, offset, buf)) && Fits(Step(f, offset, buf))
    ensures Visible(Step(f, offset, buf)) == Overlay(Visible(f), offset, buf)
  {
    TightStep(f, offset, buf);
    StepIsOverlay(f, offset, buf);
  }

  /** Old bytes reappear: cut the file 1, 2 and write 9 at offset 1. */
  lemma OldBytesReappear(f: ByteFile)
    requires Fits(f) && Visible(f) == [1, 2]
    ensures var g := Step(Step(f, 0, []), 1, [9]); Fits(g) && Visible(g) == [1, 9]
    ensures Fits(Step(f, 0, [])) && Visible(Step(f, 0, [])) == []
    ensures Overlay([], 1, [9]) == [0, 9]
  {
    var cut := Step(f, 0, []);
    StepFits(f, 0, []);
    StepFits(cut, 1, [9]);
    var now := Visible(Step(cut, 1, [9]));
    StepBytes(cut, 1, [9], 0);
    StepBytes(cut, 1, [9], 1);
    assert f.stored[0] == Visible(f)[0];
    assert |now| == 2 && now[0] == 1 && now[1] == 9;
  }

  lemma ExtendedAgain(file: seq<Byte>, m: nat, n: nat)
    requires Larger(m, |file|) == Larger(n, |file|)
    ensures Extended(file, m) == Extended(file, n)
  {
  }

  /** Nothing is added to what already fits. */
  lemma ResizedSame(f: ByteFile)
    requires Fits(f)
    ensures Resized(f, f.length) == f
  {
    assert Extended(f.stored, 512 * SectorsFor(f.length)) == f.stored;
  }
}
