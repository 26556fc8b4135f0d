/** How an inode's sectors are laid out (pintos_pro3/src/filesys/inode.c): 124 direct entries, one
    index sector of 128, and one index sector of index sectors. The abstract layout is the list of
    data sectors in file order plus the list of second-level index sectors. */
module InodeLayout {
  import opened BufferCache
  import opened IndexSector
  import opened Lists

  const DIRECT := 124
  const MAX_SECTORS := 124 + 128 + 128 * 128
  const MAGIC: int := 0x494e4f44

  datatype InodeDisk = InodeDisk(length: nat, direct: seq<int>, indirect: int, doubly: int)

  datatype Layout = Layout(data: seq<int>, subs: seq<int>)

  // ----- index tables -----

  function Min(a: int, b: int): int {
    if a < b then a else b
  }

  /** A table whose first entries are `ds` and whose other entries are unallocated. */
  function Pad(ds: seq<int>, n: nat): (ws: seq<int>)
    requires |ds| <= n
    ensures |ws| == n
  {
    ds + seq(n - |ds|, _ => 0)
  }

  /** Sector `e` is an index sector listing exactly `ds`; no sector is spent on an empty list. */
  ghost predicate IndexRep(c: seq<Block>, e: int, ds: seq<int>) {
    |ds| <= FAN && if |ds| == 0 then e == 0 else 0 < e < |c| && Words(c[e]) == Pad(ds, FAN)
  }

  /** Index sectors needed for `n` entries. */
  function Groups(n: nat): nat {
    (n + 127) / 128
  }

  function Group(ds: seq<int>, a: nat): seq<int>
    requires 128 * a <= |ds|
  {
    ds[128 * a..Min(128 * a + 128, |ds|)]
  }

  ghost predicate GroupsRep(c: seq<Block>, subs: seq<int>, ds: seq<int>) {
    && |subs| == Groups(|ds|)
    && forall a :: 0 <= a < |subs| ==> IndexRep(c, subs[a], Group(ds, a))
  }

  ghost predicate DoubleRep(c: seq<Block>, e: int, subs: seq<int>, ds: seq<int>) {
    |ds| <= FAN * FAN && IndexRep(c, e, subs) && GroupsRep(c, subs, ds)
  }

  // ----- the three parts of the data list -----

  function Direct(ds: seq<int>): seq<int> {
    ds[..Min(|ds|, DIRECT)]
  }

  function Single(ds: seq<int>): seq<int> {
    if |ds| <= DIRECT then [] else ds[DIRECT..Min(|ds|, 252)]
  }

  function Double(ds: seq<int>): seq<int> {
    if |ds| <= 252 then [] else ds[252..]
  }

  /** The inode on disk lists exactly the layout. */
  ghost predicate Rep(c: seq<Block>, id: InodeDisk, lay: Layout) {
    && |lay.data| <= MAX_SECTORS
    && id.direct == Pad(Direct(lay.data), DIRECT)
    && IndexRep(c, id.indirect, Single(lay.data))
    && DoubleRep(c, id.doubly, lay.subs, Double(lay.data))
  }

  function Entry01(e: int): seq<int> {
    if e == 0 then [] else [e]
  }

  /** Every sector the inode owns, data and index alike. */
  function Owned(id: InodeDisk, lay: Layout): seq<int> {
    lay.data + Entry01(id.indirect) + Entry01(id.doubly) + lay.subs
  }

  /** Sectors are distinct, nonzero, on the device and not free. */
  ghost predicate Disjoint(c: seq<Block>, free: set<int>, own: seq<int>) {
    && Distinct(own)
    && forall k :: 0 <= k < |own| ==> 0 < own[k] < |c| && own[k] !in free
  }

  ghost predicate Good(c: seq<Block>, free: set<int>, id: InodeDisk, lay: Layout) {
    Rep(c, id, lay) && Disjoint(c, free, Owned(id, lay))
  }

  // ----- taking sectors from the free map -----

  /** `took` is the list of sectors taken between two states of the free map. */
  ghost predicate Taken(free0: set<int>, free1: set<int>, took: seq<int>) {
    Distinct(took) && Elems(took) <= free0 && free1 == free0 - Elems(took)
  }

  lemma TakenCard(free0: set<int>, free1: set<int>, took: seq<int>)
    requires Taken(free0, free1, took)
    ensures |free1| == |free0| - |took|
  {
    DistinctCard(took);
    assert free0 == free1 + Elems(took);
  }

  lemma TakenOne(free0: set<int>, free1: set<int>, took: seq<int>, s: int)
    requires Taken(free0, free1, took) && s in free1
    ensures Taken(free0, free1 - {s}, took + [s])
  {
    assert Elems(took + [s]) == Elems(took) + {s};
  }

  lemma TakenTrans(free0: set<int>, free1: set<int>, free2: set<int>, a: seq<int>, b: seq<int>)
    requires Taken(free0, free1, a) && Taken(free1, free2, b)
    ensures Taken(free0, free2, a + b)
  {
    assert Elems(a + b) == Elems(a) + Elems(b);
    forall i, j | 0 <= i < j < |a + b| ensures (a + b)[i] != (a + b)[j] {
      if i < |a| <= j {
        assert a[i] in Elems(a) && b[j - |a|] in Elems(b);
      }
    }
  }

  lemma TakenRearranged(free0: set<int>, free1: set<int>, p: seq<int>, q: seq<int>)
    requires Taken(free0, free1, p) && Elems(q) == Elems(p) && |q| == |p|
    ensures Taken(free0, free1, q)
  {
    DistinctRearranged(p, q);
  }

  /** Sectors taken from the free map are apart from those already owned. */
  lemma DisjointGrows(c: seq<Block>, free0: set<int>, free1: set<int>, own: seq<int>, took: seq<int>)
    requires Disjoint(c, free0, own) && Taken(free0, free1, took) && forall s :: s in free0 ==> 0 < s < |c|
    ensures Disjoint(c, free1, own + took)
  {
    forall k | 0 <= k < |took| ensures took[k] in free0 && took[k] !in free1 {
      var s := took[k];
      assert s in Elems(took);
    }
  }

  lemma DisjointRearranged(c: seq<Block>, free: set<int>, p: seq<int>, q: seq<int>)
    requires Disjoint(c, free, p) && Elems(q) == Elems(p) && |q| == |p|
    ensures Disjoint(c, free, q)
  {
    DistinctRearranged(p, q);
    forall k | 0 <= k < |q| ensures 0 < q[k] < |c| && q[k] !in free {
      var s := q[k];
      assert s in Elems(p);
    }
  }

  lemma DisjointParts(c: seq<Block>, free: set<int>, a: seq<int>, b: seq<int>)
    requires Disjoint(c, free, a + b)
    ensures Disjoint(c, free, a) && Disjoint(c, free, b) && Elems(a) !! Elems(b)
  {
    forall k | 0 <= k < |a| ensures a[k] == (a + b)[k] {
    }
    forall k | 0 <= k < |b| ensures b[k] == (a + b)[|a| + k] {
    }
    forall x | x in Elems(a) ensures x !in Elems(b) {
      var i :| 0 <= i < |a| && a[i] == x;
      forall j | 0 <= j < |b| ensures b[j] != x {
        assert (a + b)[i] != (a + b)[|a| + j];
      }
    }
  }

  /** Only the listed sectors may differ. */
  ghost predicate Untouched(c0: seq<Block>, c1: seq<Block>, touched: set<int>) {
    |c0| == |c1| && forall s :: 0 <= s < |c0| && s !in touched ==> c1[s] == c0[s]
  }

  ghost predicate Zeroed(c: seq<Block>, took: seq<int>) {
    forall k :: 0 <= k < |took| ==> 0 <= took[k] < |c| && c[took[k]] == Zeros()
  }

  // ----- growth of a whole inode -----

  /** Sectors an inode with `n` data sectors owns in all. */
  function Cost(n: nat): nat {
    n + (if n > DIRECT then 1 else 0) + (if n > 252 then 1 + Groups(n - 252) else 0)
  }

  lemma CostMonotone(a: nat, b: nat)
    requires a <= b
    ensures Cost(a) <= Cost(b)
  {
  }

  function Owns(id: InodeDisk, lay: Layout): set<int> {
    set s | s in Owned(id, lay)
  }

  /** Every entry of `a` keeps its place in `b`. */
  ghost predicate Extends(a: seq<int>, b: seq<int>) {
    |a| <= |b| && forall k :: 0 <= k < |a| ==> b[k] == a[k]
  }

  /** One step of growth: earlier mappings and their contents stay, new data sectors are zero, the
      free map and the inode only exchange sectors, and nobody else's sector changes. */
  ghost predicate Grew(c0: seq<Block>, free0: set<int>, id0: InodeDisk, lay0: Layout,
                       c1: seq<Block>, free1: set<int>, id1: InodeDisk, lay1: Layout) {
    && Extends(lay0.data, lay1.data)
    && Owns(id0, lay0) <= Owns(id1, lay1)
    && free1 <= free0 && free1 + Owns(id1, lay1) == free0 + Owns(id0, lay0)
    && Untouched(c0, c1, Owns(id1, lay1) - Elems(lay0.data))
    && Zeroed(c1, lay1.data[|lay0.data|..])
    && id1.length == id0.length
  }

  lemma GrewTrans(c0: seq<Block>, free0: set<int>, id0: InodeDisk, lay0: Layout,
                  c1: seq<Block>, free1: set<int>, id1: InodeDisk, lay1: Layout,
                  c2: seq<Block>, free2: set<int>, id2: InodeDisk, lay2: Layout)
    requires Grew(c0, free0, id0, lay0, c1, free1, id1, lay1) && Grew(c1, free1, id1, lay1, c2, free2, id2, lay2)
    ensures Grew(c0, free0, id0, lay0, c2, free2, id2, lay2)
  {
    var d0, d1, d2 := lay0.data, lay1.data, lay2.data;
    forall x | x in Elems(d0) ensures x in Elems(d1) {
      var k :| 0 <= k < |d0| && d0[k] == x;
      assert d1[k] == x;
    }
    var tail := d2[|d0|..];
    forall k | 0 <= k < |tail| ensures 0 <= tail[k] < |c2| && c2[tail[k]] == Zeros() {
      if |d0| + k < |d1| {
        var x := d1[|d0|..][k];
        assert tail[k] == x == d1[|d0| + k];
        assert x in Elems(d1);
      } else {
        assert tail[k] == d2[|d1|..][|d0| + k - |d1|];
      }
    }
  }

  /** Exchanging sectors with the free map keeps an inode's sectors apart from it. */
  lemma StageKeeps(c0: seq<Block>, free0: set<int>, id0: InodeDisk, lay0: Layout,
                   c1: seq<Block>, free1: set<int>, id1: InodeDisk, lay1: Layout, took: seq<int>)
    requires Disjoint(c0, free0, Owned(id0, lay0)) && Taken(free0, free1, took) && |c1| == |c0|
    requires forall s :: s in free0 ==> 0 < s < |c0|
    requires Owns(id1, lay1) == Owns(id0, lay0) + Elems(took) && |Owned(id1, lay1)| == |Owned(id0, lay0)| + |took|
    ensures Disjoint(c1, free1, Owned(id1, lay1))
    ensures free1 <= free0 && free1 + Owns(id1, lay1) == free0 + Owns(id0, lay0)
  {
    var own0, own1 := Owned(id0, lay0), Owned(id1, lay1);
    DisjointGrows(c0, free0, free1, own0, took);
    ElemsConcat(own0, took);
    assert Elems(own1) == Owns(id1, lay1) && Elems(own0) == Owns(id0, lay0);
    DisjointRearranged(c0, free1, own0 + took, own1);
  }

  /** Extending the data list while it fits the direct entries changes only that part. */
  lemma ExtendDirect(d: seq<int>, nw: seq<int>)
    requires nw != [] ==> |d + nw| <= DIRECT
    ensures Direct(d + nw) == Direct(d) + nw && Single(d + nw) == Single(d) && Double(d + nw) == Double(d)
  {
    if nw == [] {
      assert d + nw == d;
    }
  }

  lemma ExtendSingle(d: seq<int>, nw: seq<int>)
    requires nw != [] ==> DIRECT <= |d| && |d + nw| <= 252
    ensures Direct(d + nw) == Direct(d) && Single(d + nw) == Single(d) + nw && Double(d + nw) == Double(d)
  {
    if nw == [] {
      assert d + nw == d;
    }
  }

  lemma ExtendDouble(d: seq<int>, nw: seq<int>)
    requires nw != [] ==> 252 <= |d|
    ensures Direct(d + nw) == Direct(d) && Single(d + nw) == Single(d) && Double(d + nw) == Double(d) + nw
  {
    if nw == [] {
      assert d + nw == d;
    }
  }

  /** The sectors owned add up to the cost of the data list. */
  lemma OwnedCost(c: seq<Block>, id: InodeDisk, lay: Layout)
    requires Rep(c, id, lay)
    ensures |Owned(id, lay)| == Cost(|lay.data|)
    ensures id.indirect == 0 <==> |lay.data| <= DIRECT
    ensures id.doubly == 0 <==> |lay.data| <= 252
    ensures |lay.subs| == if |lay.data| <= 252 then 0 else Groups(|lay.data| - 252)
  {
  }
}
