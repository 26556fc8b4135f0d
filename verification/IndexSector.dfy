/** Index sectors: a 512-byte block read as 128 little-endian 32-bit words, and back. */
module IndexSector {
  import opened BufferCache
  import opened Machine

  const FAN := 128

  predicate AreWords(ws: seq<int>) {
    forall i :: 0 <= i < |ws| ==> 0 <= ws[i] < B32
  }

  function LittleEndian(b0: int, b1: int, b2: int, b3: int): int {
    b0 + 0x100 * b1 + 0x1_0000 * b2 + 0x100_0000 * b3
  }

  function Word(b: Block, i: nat): (w: int)
    requires i < FAN
    ensures 0 <= w < B32
  {
    LittleEndian(b[4 * i], b[4 * i + 1], b[4 * i + 2], b[4 * i + 3])
  }

  /** memcpy from a sector into a struct of words. */
  function Words(b: Block): (ws: seq<int>)
    ensures |ws| == FAN && AreWords(ws)
  {
    seq(FAN, i requires 0 <= i < FAN => Word(b, i))
  }

  function ByteOf(w: int, k: nat): Byte
    requires 0 <= w < B32 && k < 4
  {
    if k == 0 then w % 0x100
    else if k == 1 then w / 0x100 % 0x100
    else if k == 2 then w / 0x100 / 0x100 % 0x100
    else w / 0x100 / 0x100 / 0x100
  }

  /** memcpy from a struct of words into a sector. */
  function Pack(ws: seq<int>): (b: Block)
    requires |ws| == FAN && AreWords(ws)
  {
    seq(512, k requires 0 <= k < 512 => ByteOf(ws[k / 4], k % 4))
  }

  function Zeros(): (b: Block) {
    seq(512, _ => 0)
  }

  lemma WordBytes(w: int)
    requires 0 <= w < B32
    ensures LittleEndian(ByteOf(w, 0), ByteOf(w, 1), ByteOf(w, 2), ByteOf(w, 3)) == w
  {
    var w1 := w / 0x100;
    var w2 := w1 / 0x100;
    assert w == 0x100 * w1 + w % 0x100;
    assert w1 == 0x100 * w2 + w1 % 0x100;
    assert w2 == 0x100 * (w2 / 0x100) + w2 % 0x100;
  }

  /** Writing an index sector and reading it back gives the same words. */
  lemma WordsPack(ws: seq<int>)
    requires |ws| == FAN && AreWords(ws)
    ensures Words(Pack(ws)) == ws
  {
    var b := Pack(ws);
    forall i | 0 <= i < FAN ensures Word(b, i) == ws[i] {
      WordBytes(ws[i]);
      assert b[4 * i] == ByteOf(ws[i], 0);
      assert b[4 * i + 1] == ByteOf(ws[i], 1);
      assert b[4 * i + 2] == ByteOf(ws[i], 2);
      assert b[4 * i + 3] == ByteOf(ws[i], 3);
    }
  }

  /** Words are stored lowest byte first. */
  lemma LowestFirst(ws: seq<int>, i: nat)
    requires |ws| == FAN && AreWords(ws) && i < FAN && ws[i] < 0x100
    ensures Pack(ws)[4 * i] == ws[i]
    ensures Pack(ws)[4 * i + 1] == Pack(ws)[4 * i + 2] == Pack(ws)[4 * i + 3] == 0
  {
  }

  /** A zeroed sector is an index sector without entries. */
  lemma WordsZeros()
    ensures forall i :: 0 <= i < FAN ==> Words(Zeros())[i] == 0
  {
  }
}
