/** `inode_allocate` and `inode_deallocate` (pintos_pro3/src/filesys/inode.c): growing an inode to
    any supported length and giving all its sectors back. */
module InodeAllocation {
  import opened BufferCache
  import opened IndexSector
  import opened InodeLayout
  import opened Lists
  import opened Machine
  import opened Volume

  /** `bytes_to_sectors`. */
  function SectorsFor(length: nat): nat {
    (length + 511) / 512
  }

  // ----- what each stage establishes -----

  /** The parts of an inode are apart from each other. */
  lemma OwnedParts(c: seq<Block>, free: set<int>, id: InodeDisk, lay: Layout)
    requires Disjoint(c, free, Owned(id, lay))
    ensures Disjoint(c, free, lay.data) && Disjoint(c, free, lay.subs) && Elems(lay.data) !! Elems(lay.subs)
    ensures id.indirect != 0 ==> 0 < id.indirect < |c| && id.indirect !in free && id.indirect !in lay.data
    ensures id.indirect != 0 ==> id.indirect !in lay.subs && id.indirect != id.doubly
    ensures id.doubly != 0 ==> 0 < id.doubly < |c| && id.doubly !in free && id.doubly !in lay.data
    ensures id.doubly != 0 ==> id.doubly !in lay.subs
  {
    var d, i, o, t := lay.data, Entry01(id.indirect), Entry01(id.doubly), lay.subs;
    DisjointParts(c, free, d + i + o, t);
    DisjointParts(c, free, d + i, o);
    DisjointParts(c, free, d, i);
    ElemsConcat(d + i, o);
    ElemsConcat(d, i);
    assert id.indirect != 0 ==> i[0] == id.indirect && id.indirect in Elems(i);
    assert id.doubly != 0 ==> o[0] == id.doubly && id.doubly in Elems(o);
  }

  lemma OwnsIs(id: InodeDisk, lay: Layout)
    ensures Owns(id, lay) == Elems(lay.data) + Elems(lay.subs) + Elems(Entry01(id.indirect)) + Elems(Entry01(id.doubly))
  {
  }

  lemma DirectStage(c0: seq<Block>, free0: set<int>, id0: InodeDisk, lay0: Layout, c1: seq<Block>, free1: set<int>,
                    nw: seq<int>)
    requires Good(c0, free0, id0, lay0) && (nw != [] ==> |lay0.data + nw| <= DIRECT)
    requires (forall s :: s in free0 ==> 0 < s < |c0|) && Taken(free0, free1, nw)
    requires Untouched(c0, c1, Elems(nw)) && Zeroed(c1, nw)
    ensures |Direct(lay0.data) + nw| <= DIRECT
    ensures var id1, lay1 := id0.(direct := Pad(Direct(lay0.data) + nw, DIRECT)), lay0.(data := lay0.data + nw);
            Good(c1, free1, id1, lay1) && Grew(c0, free0, id0, lay0, c1, free1, id1, lay1)
  {
    ExtendDirect(lay0.data, nw);
    var id1, lay1 := id0.(direct := Pad(Direct(lay0.data) + nw, DIRECT)), lay0.(data := lay0.data + nw);
    OwnsIs(id0, lay0);
    OwnsIs(id1, lay1);
    ElemsConcat(lay0.data, nw);
    StageKeeps(c0, free0, id0, lay0, c1, free1, id1, lay1, nw);
    OwnedParts(c0, free0, id0, lay0);
    assert Elems(nw) <= free0;
    forall a | 0 <= a < |lay0.subs| ensures IndexRep(c1, lay0.subs[a], Group(Double(lay0.data), a)) {
      assert lay0.subs[a] !in free0;
      assert IndexRep(c0, lay0.subs[a], Group(Double(lay0.data), a));
    }
    assert lay1.data[|lay0.data|..] == nw;
    assert Elems(nw) !! Elems(lay0.data) by {
      forall x | x in Elems(lay0.data) ensures x !in free0 {
        var k :| 0 <= k < |lay0.data| && lay0.data[k] == x;
      }
    }
  }

  /** Sectors out of the free map cannot be the inode's own. */
  lemma NewIsApart(c: seq<Block>, free: set<int>, own: seq<int>, nw: set<int>)
    requires Disjoint(c, free, own) && nw <= free
    ensures nw !! Elems(own)
  {
    forall x | x in Elems(own) ensures x !in free {
      var k :| 0 <= k < |own| && own[k] == x;
    }
  }

  /** Growth, given which sectors were taken and which were written. */
  lemma GrewFrom(c0: seq<Block>, free0: set<int>, id0: InodeDisk, lay0: Layout,
                 c1: seq<Block>, free1: set<int>, id1: InodeDisk, lay1: Layout,
                 took: seq<int>, nw: seq<int>, touched: set<int>)
    requires Disjoint(c0, free0, Owned(id0, lay0)) && Taken(free0, free1, took)
    requires forall s :: s in free0 ==> 0 < s < |c0|
    requires Owns(id1, lay1) == Owns(id0, lay0) + Elems(took) && |Owned(id1, lay1)| == |Owned(id0, lay0)| + |took|
    requires lay1.data == lay0.data + nw && id1.length == id0.length
    requires Untouched(c0, c1, touched) && touched <= Owns(id1, lay1) && touched !! Elems(lay0.data) && Zeroed(c1, nw)
    ensures Disjoint(c1, free1, Owned(id1, lay1)) && Grew(c0, free0, id0, lay0, c1, free1, id1, lay1)
  {
    StageKeeps(c0, free0, id0, lay0, c1, free1, id1, lay1, took);
    assert lay1.data[|lay0.data|..] == nw;
  }

  lemma SingleRep(c0: seq<Block>, free0: set<int>, id0: InodeDisk, lay0: Layout, c1: seq<Block>, e: int, nw: seq<int>)
    requires Good(c0, free0, id0, lay0) && DIRECT <= |lay0.data| && (nw != [] ==> |lay0.data + nw| <= 252)
    requires IndexRep(c1, e, Single(lay0.data) + nw) && Elems(nw) <= free0
    requires if id0.indirect != 0 then e == id0.indirect else e in free0
    requires Untouched(c0, c1, Elems(nw) + {e})
    ensures Rep(c1, id0.(indirect := e), lay0.(data := lay0.data + nw))
  {
    ExtendSingle(lay0.data, nw);
    OwnedParts(c0, free0, id0, lay0);
    forall a | 0 <= a < |lay0.subs| ensures IndexRep(c1, lay0.subs[a], Group(Double(lay0.data), a)) {
      var x := lay0.subs[a];
      assert x !in free0 && x in lay0.subs;
      assert IndexRep(c0, lay0.subs[a], Group(Double(lay0.data), a));
    }
  }

  lemma SingleStage(c0: seq<Block>, free0: set<int>, id0: InodeDisk, lay0: Layout, c1: seq<Block>, free1: set<int>,
                    e: int, nw: seq<int>)
    requires Good(c0, free0, id0, lay0) && DIRECT <= |lay0.data| && (nw != [] ==> |lay0.data + nw| <= 252)
    requires |Single(lay0.data) + nw| > 0 && IndexRep(c1, e, Single(lay0.data) + nw)
    requires id0.indirect != 0 ==> e == id0.indirect
    requires forall s :: s in free0 ==> 0 < s < |c0|
    requires Taken(free0, free1, (if id0.indirect == 0 then [e] else []) + nw)
    requires Untouched(c0, c1, Elems(nw) + {e}) && Zeroed(c1, nw)
    ensures var id1, lay1 := id0.(indirect := e), lay0.(data := lay0.data + nw);
            Good(c1, free1, id1, lay1) && Grew(c0, free0, id0, lay0, c1, free1, id1, lay1)
  {
    var id1, lay1 := id0.(indirect := e), lay0.(data := lay0.data + nw);
    var index: seq<int> := if id0.indirect == 0 then [e] else [];
    ElemsConcat(index, nw);
    assert id0.indirect == 0 ==> e in Elems(index);
    SingleRep(c0, free0, id0, lay0, c1, e, nw);
    SingleOwns(id0, lay0, e, index, nw);
    SingleApart(c0, free0, id0, lay0, e, nw);
    GrewFrom(c0, free0, id0, lay0, c1, free1, id1, lay1, index + nw, nw, Elems(nw) + {e});
  }

  lemma SingleOwns(id0: InodeDisk, lay0: Layout, e: int, index: seq<int>, nw: seq<int>)
    requires e != 0 && (id0.indirect != 0 ==> e == id0.indirect) && index == (if id0.indirect == 0 then [e] else [])
    ensures var id1, lay1 := id0.(indirect := e), lay0.(data := lay0.data + nw);
            && Owns(id1, lay1) == Owns(id0, lay0) + (Elems(index) + Elems(nw))
            && Elems(nw) + {e} <= Owns(id1, lay1)
            && |Owned(id1, lay1)| == |Owned(id0, lay0)| + |index + nw|
  {
    var id1, lay1 := id0.(indirect := e), lay0.(data := lay0.data + nw);
    OwnsIs(id0, lay0);
    OwnsIs(id1, lay1);
    ElemsConcat(lay0.data, nw);
    assert Elems([e]) == {e};
  }

  lemma SingleApart(c0: seq<Block>, free0: set<int>, id0: InodeDisk, lay0: Layout, e: int, nw: seq<int>)
    requires Disjoint(c0, free0, Owned(id0, lay0)) && Elems(nw) <= free0
    requires if id0.indirect != 0 then e == id0.indirect else e in free0
    ensures Elems(nw) + {e} !! Elems(lay0.data)
  {
    OwnedParts(c0, free0, id0, lay0);
    NewIsApart(c0, free0, lay0.data, free0);
  }

  lemma DoublyRep(c0: seq<Block>, free0: set<int>, id0: InodeDisk, lay0: Layout, c1: seq<Block>, e: int, ns: seq<int>,
                  nd: seq<int>)
    requires Good(c0, free0, id0, lay0) && 252 <= |lay0.data| && |lay0.data + nd| <= MAX_SECTORS
    requires DoubleRep(c1, e, lay0.subs + ns, Double(lay0.data) + nd) && Elems(ns) + Elems(nd) <= free0
    requires if id0.doubly != 0 then e == id0.doubly else e in free0
    requires Untouched(c0, c1, Elems(lay0.subs + ns) + Elems(nd) + {e})
    ensures Rep(c1, id0.(doubly := e), Layout(lay0.data + nd, lay0.subs + ns))
  {
    ExtendDouble(lay0.data, nd);
    SingleApartFrom(c0, free0, id0, lay0, e, ns, nd);
    IndexKept(c0, c1, id0.indirect, Single(lay0.data), Elems(lay0.subs + ns) + Elems(nd) + {e});
  }

  /** Growing the doubly indirect tree does not touch the singly indirect table. */
  lemma SingleApartFrom(c: seq<Block>, free: set<int>, id: InodeDisk, lay: Layout, e: int, ns: seq<int>, nd: seq<int>)
    requires Disjoint(c, free, Owned(id, lay)) && Elems(ns) + Elems(nd) <= free
    requires if id.doubly != 0 then e == id.doubly else e in free
    ensures id.indirect != 0 ==> id.indirect !in Elems(lay.subs + ns) + Elems(nd) + {e}
  {
    OwnedParts(c, free, id, lay);
    ElemsConcat(lay.subs, ns);
  }

  /** A table in an untouched sector still lists the same entries. */
  lemma IndexKept(c0: seq<Block>, c1: seq<Block>, entry: int, ds: seq<int>, touched: set<int>)
    requires IndexRep(c0, entry, ds) && Untouched(c0, c1, touched) && (entry != 0 ==> entry !in touched)
    ensures IndexRep(c1, entry, ds)
  {
  }

  lemma DoubleStage(c0: seq<Block>, free0: set<int>, id0: InodeDisk, lay0: Layout, c1: seq<Block>, free1: set<int>,
                    e: int, ns: seq<int>, nd: seq<int>)
    requires Good(c0, free0, id0, lay0) && 252 <= |lay0.data| && |lay0.data + nd| <= MAX_SECTORS
    requires |Double(lay0.data) + nd| > 0 && DoubleRep(c1, e, lay0.subs + ns, Double(lay0.data) + nd)
    requires id0.doubly != 0 ==> e == id0.doubly
    requires forall s :: s in free0 ==> 0 < s < |c0|
    requires Taken(free0, free1, (if id0.doubly == 0 then [e] else []) + (ns + nd))
    requires Untouched(c0, c1, Elems(lay0.subs + ns) + Elems(nd) + {e}) && Zeroed(c1, nd)
    ensures var id1, lay1 := id0.(doubly := e), Layout(lay0.data + nd, lay0.subs + ns);
            Good(c1, free1, id1, lay1) && Grew(c0, free0, id0, lay0, c1, free1, id1, lay1)
  {
    var id1, lay1 := id0.(doubly := e), Layout(lay0.data + nd, lay0.subs + ns);
    var index: seq<int> := if id0.doubly == 0 then [e] else [];
    var took := index + (ns + nd);
    var touched := Elems(lay0.subs + ns) + Elems(nd) + {e};
    assert Elems(took) == Elems(index) + Elems(ns) + Elems(nd) by {
      ElemsConcat(index, ns + nd);
      ElemsConcat(ns, nd);
    }
    assert id0.doubly == 0 ==> e in Elems(index);
    DoublyRep(c0, free0, id0, lay0, c1, e, ns, nd);
    DoublyOwns(id0, lay0, e, index, ns, nd);
    DoublyApart(c0, free0, id0, lay0, e, ns, nd);
    GrewFrom(c0, free0, id0, lay0, c1, free1, id1, lay1, took, nd, touched);
  }

  lemma DoublyOwns(id0: InodeDisk, lay0: Layout, e: int, index: seq<int>, ns: seq<int>, nd: seq<int>)
    requires e != 0 && (id0.doubly != 0 ==> e == id0.doubly) && index == (if id0.doubly == 0 then [e] else [])
    ensures var id1, lay1 := id0.(doubly := e), Layout(lay0.data + nd, lay0.subs + ns);
            && Owns(id1, lay1) == Owns(id0, lay0) + (Elems(index) + Elems(ns) + Elems(nd))
            && Elems(lay0.subs + ns) + Elems(nd) + {e} <= Owns(id1, lay1)
            && |Owned(id1, lay1)| == |Owned(id0, lay0)| + |index + (ns + nd)|
  {
    var id1, lay1 := id0.(doubly := e), Layout(lay0.data + nd, lay0.subs + ns);
    OwnsIs(id0, lay0);
    OwnsIs(id1, lay1);
    ElemsConcat(lay0.data, nd);
    ElemsConcat(lay0.subs, ns);
    assert Elems([e]) == {e};
  }

  lemma DoublyApart(c0: seq<Block>, free0: set<int>, id0: InodeDisk, lay0: Layout, e: int, ns: seq<int>, nd: seq<int>)
    requires Disjoint(c0, free0, Owned(id0, lay0)) && Elems(ns) + Elems(nd) <= free0
    requires if id0.doubly != 0 then e == id0.doubly else e in free0
    ensures Elems(lay0.subs + ns) + Elems(nd) + {e} !! Elems(lay0.data)
  {
    OwnedParts(c0, free0, id0, lay0);
    ElemsConcat(lay0.subs, ns);
    NewIsApart(c0, free0, lay0.data, free0);
  }

  // ----- the program -----

  /** An inode's tree on a device with a free map. */
  datatype Tree = Tree(c: seq<Block>, free: set<int>, id: InodeDisk, lay: Layout)

  ghost predicate GoodTree(t: Tree) {
    Good(t.c, t.free, t.id, t.lay)
  }

  /** The tree has grown to at least `n` data sectors. */
  ghost predicate GrownTo(t0: Tree, t1: Tree, n: nat) {
    GoodTree(t1) && Grew(t0.c, t0.free, t0.id, t0.lay, t1.c, t1.free, t1.id, t1.lay)
    && |t1.lay.data| == Larger(n, |t0.lay.data|)
  }

  /** Free sectors it takes to have `n` data sectors. */
  ghost function Needs(t: Tree, n: nat): int {
    Cost(n) - Cost(|t.lay.data|)
  }

  function Larger(a: int, b: int): int {
    if a > b then a else b
  }

  predicate Words32(id: InodeDisk) {
    |id.direct| == DIRECT && AreWords(id.direct) && 0 <= id.indirect < B32 && 0 <= id.doubly < B32
  }

  /** The free sectors did not last: none is left and sector 0 is zeroed. */
  ghost predicate Stuck(t: Tree) {
    Exhausted(t.c, t.free) && Words32(t.id)
  }

  lemma GoodWords(c: seq<Block>, free: set<int>, id: InodeDisk, lay: Layout)
    requires Good(c, free, id, lay) && |c| <= B32
    ensures Words32(id)
  {
    OwnedParts(c, free, id, lay);
  }

  /** Direct entries. */
  method AllocateDirect(v: Volume, id: InodeDisk, l: nat, ghost lay: Layout)
      returns (id': InodeDisk, ghost growing: bool, ghost lay': Layout)
    requires v.Valid() && |v.cache.image| > 0 && Good(v.cache.image, v.free, id, lay) && l <= DIRECT
    modifies v`free, v.cache, v.cache.entries
    ensures v.Valid() && |v.cache.image| == |old(v.cache.image)| && id'.length == id.length
    ensures growing ==>
      GrownTo(Tree(old(v.cache.image), old(v.free), id, lay), Tree(v.cache.image, v.free, id', lay'), l)
    ensures !growing ==> Stuck(Tree(v.cache.image, v.free, id', lay')) && id'.indirect == 0 && id'.doubly == 0
    ensures growing <==> |old(v.free)| >= l - |lay.data|
  {
    OwnedParts(v.cache.image, v.free, id, lay);
    ghost var nw;
    var table;
    table, nw := v.FillTable(id.direct, l, Direct(lay.data));
    id', lay' := id.(direct := table), lay.(data := lay.data + nw);
    growing := |nw| == Lacking(l, |Direct(lay.data)|);
    if growing {
      DirectStage(old(v.cache.image), old(v.free), id, lay, v.cache.image, v.free, nw);
      DirectLength(lay.data, nw, l);
    } else {
      DirectShort(old(v.cache.image), old(v.free), id, lay, nw);
    }
  }

  lemma DirectLength(ds: seq<int>, nw: seq<int>, l: nat)
    requires l <= DIRECT && |nw| == Lacking(l, |Direct(ds)|)
    ensures |ds + nw| == Larger(l, |ds|)
  {
  }

  lemma DirectShort(c: seq<Block>, free: set<int>, id: InodeDisk, lay: Layout, nw: seq<int>)
    requires Good(c, free, id, lay) && |c| <= B32 && |lay.data| < DIRECT && |Direct(lay.data) + nw| <= DIRECT
    requires Elems(nw) <= free && forall s :: s in free ==> 0 < s < |c|
    ensures id.indirect == 0 && id.doubly == 0 && AreWords(Pad(Direct(lay.data) + nw, DIRECT))
  {
    OwnedCost(c, id, lay);
    OwnedParts(c, free, id, lay);
    TableIsWords(Direct(lay.data), nw, free, |c|, DIRECT);
  }

  /** The singly indirect entry. */
  method AllocateSingle(v: Volume, id: InodeDisk, l: nat, ghost growing: bool, ghost lay: Layout)
      returns (id': InodeDisk, ghost growing': bool, ghost lay': Layout)
    requires v.Valid() && |v.cache.image| > 0 && 0 < l <= FAN
    requires growing ==> Good(v.cache.image, v.free, id, lay) && DIRECT <= |lay.data|
    requires !growing ==> Stuck(Tree(v.cache.image, v.free, id, lay)) && id.indirect == 0 && id.doubly == 0
    modifies v`free, v.cache, v.cache.entries
    ensures v.Valid() && |v.cache.image| == |old(v.cache.image)| && id'.length == id.length
    ensures growing' ==>
      GrownTo(Tree(old(v.cache.image), old(v.free), id, lay), Tree(v.cache.image, v.free, id', lay'), DIRECT + l)
    ensures !growing' ==> Stuck(Tree(v.cache.image, v.free, id', lay')) && id'.doubly == 0
    ensures growing' <==> growing && |old(v.free)| >= Cost(DIRECT + l) - Cost(|lay.data|)
  {
    ghost var ds := if growing then Single(lay.data) else [];
    if growing {
      OwnedParts(v.cache.image, v.free, id, lay);
      GoodWords(v.cache.image, v.free, id, lay);
      SingleNeed(v.cache.image, id, lay, l);
    }
    ghost var nw;
    var e;
    e, nw := v.AllocateIndex(id.indirect, l, ds);
    id', lay' := id.(indirect := e), lay.(data := lay.data + nw);
    growing' := growing && |old(v.free)| >= IndexNeed(id.indirect, l, |ds|);
    if growing' {
      SingleStage(old(v.cache.image), old(v.free), id, lay, v.cache.image, v.free, e, nw);
    }
  }

  lemma SingleNeed(c: seq<Block>, id: InodeDisk, lay: Layout, l: nat)
    requires Rep(c, id, lay) && DIRECT <= |lay.data| && 0 < l <= FAN
    ensures IndexNeed(id.indirect, l, |Single(lay.data)|) == Larger(0, Cost(DIRECT + l) - Cost(|lay.data|))
    ensures |lay.data| + Lacking(l, |Single(lay.data)|) == Larger(DIRECT + l, |lay.data|)
    ensures IndexNeed(id.indirect, l, |Single(lay.data)|) > 0 ==> id.doubly == 0
  {
    OwnedCost(c, id, lay);
  }

  /** The doubly indirect entry. */
  method AllocateDoubly(v: Volume, id: InodeDisk, l: nat, ghost growing: bool, ghost lay: Layout)
      returns (id': InodeDisk, ghost growing': bool, ghost lay': Layout)
    requires v.Valid() && |v.cache.image| > 0 && 0 < l <= FAN * FAN
    requires growing ==> Good(v.cache.image, v.free, id, lay) && 252 <= |lay.data|
    requires !growing ==> Stuck(Tree(v.cache.image, v.free, id, lay)) && id.doubly == 0
    modifies v`free, v.cache, v.cache.entries
    ensures v.Valid() && |v.cache.image| == |old(v.cache.image)| && id'.length == id.length
    ensures growing' ==>
      GrownTo(Tree(old(v.cache.image), old(v.free), id, lay), Tree(v.cache.image, v.free, id', lay'), 252 + l)
    ensures !growing' ==> Stuck(Tree(v.cache.image, v.free, id', lay'))
    ensures growing' <==> growing && |old(v.free)| >= Cost(252 + l) - Cost(|lay.data|)
  {
    ghost var subs, ds := if growing then lay.subs else [], if growing then Double(lay.data) else [];
    if growing {
      DoubleDisjoint(v.cache.image, v.free, id, lay);
      GoodWords(v.cache.image, v.free, id, lay);
      DoublyNeed(v.cache.image, id, lay, l);
    }
    ghost var ns, nd;
    var e;
    e, ns, nd := v.AllocateDouble(id.doubly, l, subs, ds);
    id', lay' := id.(doubly := e), Layout(lay.data + nd, lay.subs + ns);
    growing' := growing && |old(v.free)| >= DoubleNeed(id.doubly, l, |ds|);
    if growing' {
      DoubleStage(old(v.cache.image), old(v.free), id, lay, v.cache.image, v.free, e, ns, nd);
    }
  }

  lemma DoublyNeed(c: seq<Block>, id: InodeDisk, lay: Layout, l: nat)
    requires Rep(c, id, lay) && 252 <= |lay.data| && 0 < l <= FAN * FAN
    ensures DoubleNeed(id.doubly, l, |Double(lay.data)|) == Larger(0, Cost(252 + l) - Cost(|lay.data|))
    ensures |lay.data| + Lacking(l, |Double(lay.data)|) == Larger(252 + l, |lay.data|)
  {
    OwnedCost(c, id, lay);
    var have: nat := |lay.data| - 252;
    assert |Double(lay.data)| == have;
    TreeNeed(have, l, 252 + l, |lay.data|);
  }

  lemma TreeNeed(have: nat, l: nat, n: nat, m: nat)
    requires n == 252 + l && m == 252 + have && l > 0
    ensures GroupsNeed(l, have) + (if have == 0 then 1 else 0) == Larger(0, Cost(n) - Cost(m))
  {
  }

  lemma DoubleDisjoint(c: seq<Block>, free: set<int>, id: InodeDisk, lay: Layout)
    requires Disjoint(c, free, Owned(id, lay))
    ensures Disjoint(c, free, Entry01(id.doubly) + lay.subs + Double(lay.data))
    ensures id.doubly != 0 ==> id.doubly !in free
  {
    OwnedParts(c, free, id, lay);
    var d, o, t := lay.data, Entry01(id.doubly), lay.subs;
    var front, x := d[..|d| - |Double(d)|], Double(d);
    assert d == front + x;
    ElemsConcat(front, x);
    forall k | 0 <= k < |o + t + x| ensures 0 < (o + t + x)[k] < |c| && (o + t + x)[k] !in free {
    }
    forall i, j | 0 <= i < j < |o + t + x| ensures (o + t + x)[i] != (o + t + x)[j] {
      var a, b := (o + t + x)[i], (o + t + x)[j];
      if j >= |o + t| {
        assert b == x[j - |o + t|] && b in Elems(d);
        if |o| <= i < |o + t| {
          assert a == t[i - |o|] && a in Elems(t);
        }
      }
    }
  }

  /** Growth costs exactly the difference of the costs. */
  lemma GrewCard(c0: seq<Block>, free0: set<int>, id0: InodeDisk, lay0: Layout, c1: seq<Block>, free1: set<int>,
                 id1: InodeDisk, lay1: Layout)
    requires Good(c0, free0, id0, lay0) && Good(c1, free1, id1, lay1)
    requires Grew(c0, free0, id0, lay0, c1, free1, id1, lay1)
    ensures |free1| == |free0| - (Cost(|lay1.data|) - Cost(|lay0.data|))
  {
    OwnedCost(c0, id0, lay0);
    OwnedCost(c1, id1, lay1);
    DistinctCard(Owned(id0, lay0));
    DistinctCard(Owned(id1, lay1));
    assert Elems(Owned(id0, lay0)) == Owns(id0, lay0) && Elems(Owned(id1, lay1)) == Owns(id1, lay1);
    NewIsApart(c0, free0, Owned(id0, lay0), free0);
    NewIsApart(c1, free1, Owned(id1, lay1), free1);
  }

  /** `inode_allocate`: grow the inode to its length, at exactly the sectors that costs. Sectors the
      tables list beyond the length stay listed. With too few free sectors it reports success all the
      same, having used them up and zeroed sector 0, the free map's own. */
  method Allocate(v: Volume, id: InodeDisk, ghost lay: Layout) returns (ok: bool, id': InodeDisk, ghost lay': Layout)
    requires v.Valid() && |v.cache.image| > 0 && Good(v.cache.image, v.free, id, lay)
    requires SectorsFor(id.length) <= MAX_SECTORS
    modifies v`free, v.cache, v.cache.entries
    ensures ok && v.Valid() && |v.cache.image| == |old(v.cache.image)| && id'.length == id.length
    ensures var t0, t1 := Tree(old(v.cache.image), old(v.free), id, lay), Tree(v.cache.image, v.free, id', lay');
            if |old(v.free)| >= Needs(t0, SectorsFor(id.length)) then GrownTo(t0, t1, SectorsFor(id.length))
            else Stuck(t1)
  {
    ghost var t0, growing := Tree(v.cache.image, v.free, id, lay), true;
    var n := SectorsFor(id.length);
    var l := Min(n, DIRECT);
    ghost var total := n;
    DirectNeed(t0, l, n);
    id', growing, lay' := AllocateDirect(v, id, l, lay);
    n := n - l;
    if n > 0 {
      id', growing, lay' := AllocateRest(v, id', n, growing, lay', total, t0);
    }
    ok := true;
    if growing {
      RoomWasThere(t0, Tree(v.cache.image, v.free, id', lay'), total);
    }
  }

  lemma DirectNeed(t: Tree, l: nat, n: nat)
    requires l == Min(n, DIRECT)
    ensures |t.free| >= Needs(t, n) ==> |t.free| >= l - |t.lay.data|
  {
  }

  /** What has grown had the room for it. */
  lemma RoomWasThere(t0: Tree, t1: Tree, n: nat)
    requires GoodTree(t0) && GrownTo(t0, t1, n)
    ensures |t0.free| >= Needs(t0, n)
  {
    GrewCard(t0.c, t0.free, t0.id, t0.lay, t1.c, t1.free, t1.id, t1.lay);
    CostMonotone(n, |t1.lay.data|);
  }

  /** The indirect stages of `inode_allocate`, for the `n` sectors beyond the direct ones. */
  method AllocateRest(v: Volume, id1: InodeDisk, n: nat, ghost growing: bool, ghost lay1: Layout, ghost total: nat,
                      ghost t0: Tree)
      returns (id': InodeDisk, ghost growing': bool, ghost lay': Layout)
    requires v.Valid() && |v.cache.image| > 0 && GoodTree(t0)
    requires 0 < n <= FAN + FAN * FAN && total == DIRECT + n
    requires growing ==> GrownTo(t0, Tree(v.cache.image, v.free, id1, lay1), DIRECT)
    requires !growing ==> Stuck(Tree(v.cache.image, v.free, id1, lay1)) && id1.indirect == 0 && id1.doubly == 0
    modifies v`free, v.cache, v.cache.entries
    ensures v.Valid() && |v.cache.image| == |old(v.cache.image)| && id'.length == id1.length
    ensures growing' ==> GrownTo(t0, Tree(v.cache.image, v.free, id', lay'), total)
    ensures !growing' ==> Stuck(Tree(v.cache.image, v.free, id', lay'))
    ensures growing && |t0.free| >= Needs(t0, total) ==> growing'
  {
    var l := Min(n, FAN);
    id', growing', lay' := AllocateNext(v, id1, l, n, growing, lay1, total, t0);
    var rest := n - l;
    if rest > 0 {
      id', growing', lay' := AllocateLast(v, id', rest, growing', lay', total, t0);
    }
  }

  /** Growth stages compose. */
  lemma GrownTrans(t0: Tree, t1: Tree, t2: Tree, m: nat, n: nat)
    requires GrownTo(t0, t1, m) && GrownTo(t1, t2, n) && m <= n
    ensures GrownTo(t0, t2, n)
  {
    GrewTrans(t0.c, t0.free, t0.id, t0.lay, t1.c, t1.free, t1.id, t1.lay, t2.c, t2.free, t2.id, t2.lay);
  }

  /** Room for the whole is room for the next stage. */
  lemma StageRoom(t0: Tree, t1: Tree, m: nat, n: nat, total: nat)
    requires GoodTree(t0) && GrownTo(t0, t1, m) && n <= total && |t0.free| >= Needs(t0, total)
    ensures |t1.free| >= Needs(t1, n)
  {
    GrewCard(t0.c, t0.free, t0.id, t0.lay, t1.c, t1.free, t1.id, t1.lay);
    CostMonotone(n, total);
  }

  /** The singly indirect stage of `inode_allocate`. */
  method AllocateNext(v: Volume, id1: InodeDisk, l: nat, n: nat, ghost growing: bool, ghost lay1: Layout,
                      ghost total: nat, ghost t0: Tree)
      returns (id': InodeDisk, ghost growing': bool, ghost lay': Layout)
    requires v.Valid() && |v.cache.image| > 0 && GoodTree(t0)
    requires 0 < n <= FAN + FAN * FAN && l == Min(n, FAN) && total == DIRECT + n
    requires growing ==> GrownTo(t0, Tree(v.cache.image, v.free, id1, lay1), DIRECT)
    requires !growing ==> Stuck(Tree(v.cache.image, v.free, id1, lay1)) && id1.indirect == 0 && id1.doubly == 0
    modifies v`free, v.cache, v.cache.entries
    ensures v.Valid() && |v.cache.image| == |old(v.cache.image)| && id'.length == id1.length
    ensures growing' ==> GrownTo(t0, Tree(v.cache.image, v.free, id', lay'), if n <= FAN then total else 252)
    ensures !growing' ==> Stuck(Tree(v.cache.image, v.free, id', lay')) && id'.doubly == 0
    ensures growing && |t0.free| >= Needs(t0, total) ==> growing'
  {
    ghost var t1 := Tree(v.cache.image, v.free, id1, lay1);
    ghost var next: nat := if n <= FAN then total else 252;
    assert next == DIRECT + l;
    id', growing', lay' := AllocateSingle(v, id1, l, growing, lay1);
    if growing' {
      GrownTrans(t0, t1, Tree(v.cache.image, v.free, id', lay'), DIRECT, next);
    } else if growing && |t0.free| >= Needs(t0, total) {
      StageRoom(t0, t1, DIRECT, next, total);
    }
  }

  /** The doubly indirect stage of `inode_allocate`. */
  method AllocateLast(v: Volume, id2: InodeDisk, n: nat, ghost growing: bool, ghost lay2: Layout, ghost total: nat,
                      ghost t0: Tree)
      returns (id': InodeDisk, ghost growing': bool, ghost lay': Layout)
    requires v.Valid() && |v.cache.image| > 0 && GoodTree(t0) && 0 < n <= FAN * FAN && total == 252 + n
    requires growing ==> GrownTo(t0, Tree(v.cache.image, v.free, id2, lay2), 252)
    requires !growing ==> Stuck(Tree(v.cache.image, v.free, id2, lay2)) && id2.doubly == 0
    modifies v`free, v.cache, v.cache.entries
    ensures v.Valid() && |v.cache.image| == |old(v.cache.image)| && id'.length == id2.length
    ensures growing' ==> GrownTo(t0, Tree(v.cache.image, v.free, id', lay'), total)
    ensures !growing' ==> Stuck(Tree(v.cache.image, v.free, id', lay'))
    ensures growing && |t0.free| >= Needs(t0, total) ==> growing'
  {
    ghost var t2 := Tree(v.cache.image, v.free, id2, lay2);
    id', growing', lay' := AllocateDoubly(v, id2, n, growing, lay2);
    if growing' {
      GrownTrans(t0, t2, Tree(v.cache.image, v.free, id', lay'), 252, total);
    } else if growing && |t0.free| >= Needs(t0, total) {
      StageRoom(t0, t2, 252, total, total);
    }
  }

  // ----- giving everything back -----

  /** Sector `e` is an index sector that starts with `ds`. */
  ghost predicate StartsWith(c: seq<Block>, e: int, ds: seq<int>) {
    |ds| <= FAN && 0 < e < |c| && Words(c[e])[..|ds|] == ds
  }

  ghost predicate GroupsStart(c: seq<Block>, subs: seq<int>, ds: seq<int>) {
    && |subs| == Groups(|ds|)
    && forall a :: 0 <= a < |subs| ==> StartsWith(c, subs[a], Group(ds, a))
  }

  /** Release the first `l` entries of a table. */
  method ReleaseEntries(v: Volume, table: seq<int>, l: nat, ghost ds: seq<int>)
    requires v.Valid() && l == |ds| <= |table| && table[..l] == ds && Disjoint(v.cache.image, v.free, ds)
    modifies v`free
    ensures v.Valid() && v.free == old(v.free) + Elems(ds)
  {
    for i := 0 to l
      invariant v.Valid() && v.free == old(v.free) + Elems(ds[..i])
    {
      assert table[i] == ds[i];
      var s := table[i];
      assert s !in Elems(ds[..i]);
      v.Release(s);
      assert ds[..i + 1] == ds[..i] + [s];
    }
    assert ds[..l] == ds;
  }

  /** `inode_deallocate_indirect` at level 1. */
  method DeallocateIndex(v: Volume, entry: int, num: nat, ghost ds: seq<int>)
    requires v.Valid() && StartsWith(v.cache.image, entry, ds) && num == |ds|
    requires Disjoint(v.cache.image, v.free, [entry] + ds)
    modifies v`free, v.cache`clock, v.cache`disk, v.cache.entries
    ensures v.Valid() && v.free == old(v.free) + Elems(ds) + {entry}
  {
    DisjointParts(v.cache.image, v.free, [entry], ds);
    var block := v.cache.Read(entry);
    var table := Words(block);
    assert entry in Elems([entry]);
    ReleaseEntries(v, table, num, ds);
    v.Release(entry);
  }

  /** Sectors of group `a` and its index sector are apart from everything released before. */
  lemma GroupApart(c: seq<Block>, free0: set<int>, free: set<int>, subs: seq<int>, ds: seq<int>, a: nat)
    requires Disjoint(c, free0, subs + ds) && |subs| == Groups(|ds|) && a < |subs|
    requires free == free0 + Elems(ds[..128 * a]) + Elems(subs[..a])
    ensures Disjoint(c, free, [subs[a]] + Group(ds, a))
  {
    var g := Group(ds, a);
    var d0, d1, s0, s1 := ds[..128 * a], ds[128 * a + |g|..], subs[..a], subs[a + 1..];
    assert ds == d0 + g + d1;
    assert subs == s0 + [subs[a]] + s1;
    var q := (d0 + s0) + (([subs[a]] + g) + (s1 + d1));
    ElemsFour(d0, s0, [subs[a]], g, s1, d1);
    DisjointRearranged(c, free0, subs + ds, q);
    StillDisjoint(c, free0, d0 + s0, ([subs[a]] + g) + (s1 + d1));
    ElemsConcat(d0, s0);
    assert free == free0 + Elems(d0 + s0);
    DisjointParts(c, free, [subs[a]] + g, s1 + d1);
  }

  lemma ElemsFour(d0: seq<int>, s0: seq<int>, x: seq<int>, g: seq<int>, s1: seq<int>, d1: seq<int>)
    ensures Elems((d0 + s0) + ((x + g) + (s1 + d1))) == Elems((s0 + x + s1) + (d0 + g + d1))
  {
  }

  lemma ReleasedStep(ds: seq<int>, subs: seq<int>, a: nat)
    requires |subs| == Groups(|ds|) && a < |subs|
    ensures Elems(ds[..Min(128 * a + 128, |ds|)]) == Elems(ds[..128 * a]) + Elems(Group(ds, a))
    ensures Elems(subs[..a + 1]) == Elems(subs[..a]) + {subs[a]}
  {
    assert ds[..Min(128 * a + 128, |ds|)] == ds[..128 * a] + Group(ds, a);
    ElemsConcat(ds[..128 * a], Group(ds, a));
    assert subs[..a + 1] == subs[..a] + [subs[a]];
    ElemsConcat(subs[..a], [subs[a]]);
    assert Elems([subs[a]]) == {subs[a]};
  }

  lemma Regroup(free: set<int>, d: set<int>, s: set<int>, g: set<int>, e: set<int>)
    ensures free + d + s + g + e == free + (d + g) + (s + e)
  {
  }

  /** One turn of the loop of `inode_deallocate_indirect` at level 2. */
  method ReleaseGroup(v: Volume, a: nat, entry: int, per: nat, ghost subs: seq<int>, ghost ds: seq<int>,
                      ghost free0: set<int>)
    requires v.Valid() && GroupsStart(v.cache.image, subs, ds) && a < |subs| && entry == subs[a]
    requires per == Min(|ds| - 128 * a, 128)
    requires Disjoint(v.cache.image, free0, subs + ds)
    requires v.free == free0 + Elems(ds[..128 * a]) + Elems(subs[..a])
    modifies v`free, v.cache`clock, v.cache`disk, v.cache.entries
    ensures v.Valid() && v.free == free0 + Elems(ds[..128 * a + per]) + Elems(subs[..a + 1])
  {
    GroupApart(v.cache.image, free0, v.free, subs, ds, a);
    DeallocateIndex(v, entry, per, Group(ds, a));
    ReleasedStep(ds, subs, a);
    Regroup(free0, Elems(ds[..128 * a]), Elems(subs[..a]), Elems(Group(ds, a)), {entry});
  }

  /** The loop of `inode_deallocate_indirect` at level 2. */
  method DeallocateGroups(v: Volume, table: seq<int>, num: nat, ghost subs: seq<int>, ghost ds: seq<int>)
    requires v.Valid() && num == |ds| && GroupsStart(v.cache.image, subs, ds) && |subs| <= |table|
    requires subs == table[..|subs|]
    requires Disjoint(v.cache.image, v.free, subs + ds)
    modifies v`free, v.cache`clock, v.cache`disk, v.cache.entries
    ensures v.Valid() && v.free == old(v.free) + Elems(ds) + Elems(subs)
  {
    var left, l, a := num, Groups(num), 0;
    while a < l
      invariant v.Valid() && a <= l && left == num - Min(128 * a, num)
      invariant v.free == old(v.free) + Elems(ds[..Min(128 * a, num)]) + Elems(subs[..a])
    {
      var per := Min(left, 128);
      ReleaseGroup(v, a, table[a], per, subs, ds, old(v.free));
      left := left - per;
      a := a + 1;
    }
    assert ds[..num] == ds && subs[..l] == subs;
  }

  /** `inode_deallocate_indirect` at level 2. */
  method DeallocateDouble(v: Volume, entry: int, num: nat, ghost subs: seq<int>, ghost ds: seq<int>)
    requires v.Valid() && StartsWith(v.cache.image, entry, subs) && GroupsStart(v.cache.image, subs, ds) && num == |ds|
    requires Disjoint(v.cache.image, v.free, [entry] + (subs + ds))
    modifies v`free, v.cache`clock, v.cache`disk, v.cache.entries
    ensures v.Valid() && v.free == old(v.free) + Elems(ds) + Elems(subs) + {entry}
  {
    DisjointParts(v.cache.image, v.free, [entry], subs + ds);
    ElemsConcat(subs, ds);
    assert entry in Elems([entry]);
    var block := v.cache.Read(entry);
    DeallocateGroups(v, Words(block), num, subs, ds);
    v.Release(entry);
  }

  // ----- what a length covers -----

  /** The entries of an inode that the first `n` sectors of the file go through. */
  function CoveredInode(id: InodeDisk, n: nat): InodeDisk {
    id.(indirect := if n > DIRECT then id.indirect else 0, doubly := if n > 252 then id.doubly else 0)
  }

  /** The first `n` data sectors and the index sectors behind them. */
  function CoveredLayout(lay: Layout, n: nat): Layout {
    Layout(lay.data[..Min(n, |lay.data|)], if n > 252 then lay.subs[..Min(Groups(n - 252), |lay.subs|)] else [])
  }

  /** Everything the first `n` sectors of the file consist of or go through. */
  function Covered(id: InodeDisk, lay: Layout, n: nat): set<int> {
    Owns(CoveredInode(id, n), CoveredLayout(lay, n))
  }

  /** The covered sectors are among those owned; they number what `n` sectors cost. */
  lemma CoveredDisjoint(c: seq<Block>, free: set<int>, id: InodeDisk, lay: Layout, n: nat)
    requires Good(c, free, id, lay) && n <= |lay.data|
    ensures Disjoint(c, free, Owned(CoveredInode(id, n), CoveredLayout(lay, n)))
    ensures Covered(id, lay, n) <= Owns(id, lay)
    ensures |Owned(CoveredInode(id, n), CoveredLayout(lay, n))| == Cost(n)
  {
    CoveredCost(c, id, lay, n);
    var own := Owned(CoveredInode(id, n), CoveredLayout(lay, n));
    var rest := Uncovered(id, lay, n);
    CoveredSplit(c, id, lay, n);
    DisjointRearranged(c, free, Owned(id, lay), own + rest);
    DisjointParts(c, free, own, rest);
    ElemsConcat(own, rest);
  }

  /** The owned sectors that are not covered. */
  function Uncovered(id: InodeDisk, lay: Layout, n: nat): seq<int>
    requires n <= |lay.data|
  {
    lay.data[n..] + (if n > DIRECT then [] else Entry01(id.indirect)) + (if n > 252 then [] else Entry01(id.doubly))
    + lay.subs[|CoveredLayout(lay, n).subs|..]
  }

  lemma CoveredSplit(c: seq<Block>, id: InodeDisk, lay: Layout, n: nat)
    requires Rep(c, id, lay) && n <= |lay.data|
    ensures var both := Owned(CoveredInode(id, n), CoveredLayout(lay, n)) + Uncovered(id, lay, n);
            Elems(both) == Elems(Owned(id, lay)) && |both| == |Owned(id, lay)|
  {
    var id', lay' := CoveredInode(id, n), CoveredLayout(lay, n);
    var i, o, m := Entry01(id'.indirect), Entry01(id'.doubly), |lay'.subs|;
    var ix, ox := if n > DIRECT then [] else Entry01(id.indirect), if n > 252 then [] else Entry01(id.doubly);
    SplitSeq(lay.data, n);
    SplitSeq(lay.subs, m);
    NoneLeft(id.indirect, n > DIRECT, i, ix);
    NoneLeft(id.doubly, n > 252, o, ox);
    CoveredElems(lay.data[..n], lay.data[n..], i, ix, o, ox, lay.subs[..m], lay.subs[m..]);
  }

  lemma SplitSeq(s: seq<int>, m: nat)
    requires m <= |s|
    ensures s[..m] + s[m..] == s
  {
  }

  lemma NoneLeft(entry: int, taken: bool, a: seq<int>, b: seq<int>)
    requires a == Entry01(if taken then entry else 0) && b == if taken then [] else Entry01(entry)
    ensures a + b == Entry01(entry)
  {
  }

  lemma CoveredCost(c: seq<Block>, id: InodeDisk, lay: Layout, n: nat)
    requires Rep(c, id, lay) && n <= |lay.data|
    ensures |Owned(CoveredInode(id, n), CoveredLayout(lay, n))| == Cost(n)
  {
    OwnedCost(c, id, lay);
  }

  lemma CoveredElems(d: seq<int>, dx: seq<int>, i: seq<int>, ix: seq<int>, o: seq<int>, ox: seq<int>, t: seq<int>,
                     tx: seq<int>)
    ensures Elems((d + i + o + t) + (dx + ix + ox + tx)) == Elems((d + dx) + (i + ix) + (o + ox) + (t + tx))
  {
  }

  /** The tables list the covered part. */
  lemma CoveredLists(c: seq<Block>, id: InodeDisk, lay: Layout, n: nat)
    requires Rep(c, id, lay) && n <= |lay.data|
    ensures var data, subs := CoveredLayout(lay, n).data, CoveredLayout(lay, n).subs;
            && id.direct[..Min(n, DIRECT)] == Direct(data)
            && (n > DIRECT ==> StartsWith(c, id.indirect, Single(data)))
            && (n > 252 ==> StartsWith(c, id.doubly, subs) && GroupsStart(c, subs, Double(data)))
  {
    OwnedCost(c, id, lay);
    var data, subs := CoveredLayout(lay, n).data, CoveredLayout(lay, n).subs;
    PartsPrefix(lay.data, n);
    PadPrefix(Direct(lay.data), DIRECT, Min(n, DIRECT));
    if n > DIRECT {
      StartsWithPrefix(c, id.indirect, Single(lay.data), Single(data));
    }
    if n > 252 {
      StartsWithPrefix(c, id.doubly, lay.subs, subs);
      GroupsStartWith(c, lay.subs, Double(lay.data), n - 252);
    }
  }

  lemma PadPrefix(ds: seq<int>, size: nat, m: nat)
    requires m <= |ds| <= size
    ensures Pad(ds, size)[..m] == ds[..m]
  {
  }

  lemma PartsPrefix(ds: seq<int>, n: nat)
    requires n <= |ds|
    ensures Direct(ds[..n]) == Direct(ds)[..Min(n, DIRECT)]
    ensures n > DIRECT ==> 0 < |Single(ds[..n])| <= |Single(ds)|
    ensures n > DIRECT ==> Single(ds[..n]) == Single(ds)[..|Single(ds[..n])|]
    ensures n > 252 ==> n - 252 <= |Double(ds)| && Double(ds[..n]) == Double(ds)[..n - 252]
  {
  }

  lemma GroupsStartWith(c: seq<Block>, subs: seq<int>, ds: seq<int>, m: nat)
    requires GroupsRep(c, subs, ds) && m <= |ds|
    ensures Groups(m) <= |subs| && GroupsStart(c, subs[..Groups(m)], ds[..m])
  {
    forall a | 0 <= a < Groups(m) ensures StartsWith(c, subs[a], Group(ds[..m], a)) {
      assert IndexRep(c, subs[a], Group(ds, a));
      GroupPrefix(ds, m, a);
      StartsWithPrefix(c, subs[a], Group(ds, a), Group(ds[..m], a));
    }
  }

  lemma GroupPrefix(ds: seq<int>, m: nat, a: nat)
    requires m <= |ds| && 128 * a < m
    ensures 0 < |Group(ds[..m], a)| <= |Group(ds, a)| && Group(ds[..m], a) == Group(ds, a)[..|Group(ds[..m], a)|]
  {
    SlicePrefix(ds, m, 128 * a, Min(128 * a + 128, m), Min(128 * a + 128, |ds|));
  }

  lemma SlicePrefix(ds: seq<int>, m: nat, lo: nat, hi: nat, end: nat)
    requires lo < hi <= end <= |ds| && hi <= m <= |ds|
    ensures ds[..m][lo..hi] == ds[lo..end][..hi - lo]
  {
  }

  lemma StartsWithPrefix(c: seq<Block>, e: int, ds: seq<int>, front: seq<int>)
    requires IndexRep(c, e, ds) && 0 < |front| <= |ds| && front == ds[..|front|]
    ensures StartsWith(c, e, front)
  {
    assert Pad(ds, FAN)[..|front|] == front;
  }

  /** The three parts of an inode's sectors, in the order in which they are released. */
  function DirectPart(id: InodeDisk, lay: Layout): seq<int> {
    Direct(lay.data)
  }

  function SinglePart(id: InodeDisk, lay: Layout): seq<int> {
    Entry01(id.indirect) + Single(lay.data)
  }

  function DoublePart(id: InodeDisk, lay: Layout): seq<int> {
    Entry01(id.doubly) + (lay.subs + Double(lay.data))
  }

  /** The sectors of an inode in the order in which they are released. */
  function ReleaseOrder(id: InodeDisk, lay: Layout): seq<int> {
    DirectPart(id, lay) + (SinglePart(id, lay) + DoublePart(id, lay))
  }

  lemma ReleaseOrderIs(id: InodeDisk, lay: Layout)
    ensures |ReleaseOrder(id, lay)| == |Owned(id, lay)| && Elems(ReleaseOrder(id, lay)) == Owns(id, lay)
  {
    var d := lay.data;
    assert d == Direct(d) + Single(d) + Double(d);
    ElemsConcat(Direct(d) + Single(d), Double(d));
    ElemsConcat(Direct(d), Single(d));
    OwnsIs(id, lay);
    ReleaseElems(Direct(d), Entry01(id.indirect), Single(d), Entry01(id.doubly), lay.subs, Double(d));
  }

  lemma ReleaseElems(x: seq<int>, i: seq<int>, y: seq<int>, o: seq<int>, t: seq<int>, z: seq<int>)
    ensures Elems(x + ((i + y) + (o + (t + z))))
            == Elems(x) + (Elems(i) + Elems(y)) + (Elems(o) + (Elems(t) + Elems(z)))
  {
    ElemsConcat(x, (i + y) + (o + (t + z)));
    ElemsConcat(i + y, o + (t + z));
    ElemsConcat(i, y);
    ElemsConcat(o, t + z);
    ElemsConcat(t, z);
  }

  /** The three parts of an inode's sectors, each still unreleased when its turn comes. */
  lemma DeallocateParts(c: seq<Block>, free: set<int>, id: InodeDisk, lay: Layout)
    requires Disjoint(c, free, Owned(id, lay))
    ensures var part1, part2, part3 := DirectPart(id, lay), SinglePart(id, lay), DoublePart(id, lay);
            && Disjoint(c, free, part1)
            && Disjoint(c, free + Elems(part1), part2)
            && Disjoint(c, free + Elems(part1) + Elems(part2), part3)
            && Owns(id, lay) == Elems(part1) + Elems(part2) + Elems(part3)
  {
    var part1, part2, part3 := DirectPart(id, lay), SinglePart(id, lay), DoublePart(id, lay);
    ReleaseOrderIs(id, lay);
    DisjointRearranged(c, free, Owned(id, lay), ReleaseOrder(id, lay));
    DisjointParts(c, free, part1, part2 + part3);
    StillDisjoint(c, free, part1, part2 + part3);
    DisjointParts(c, free + Elems(part1), part2, part3);
    StillDisjoint(c, free + Elems(part1), part2, part3);
    ElemsConcat(part1, part2 + part3);
    ElemsConcat(part2, part3);
  }

  /** Releasing one part leaves the others unreleased. */
  lemma StillDisjoint(c: seq<Block>, free: set<int>, a: seq<int>, b: seq<int>)
    requires Disjoint(c, free, a + b)
    ensures Disjoint(c, free + Elems(a), b)
  {
    DisjointParts(c, free, a, b);
    forall k | 0 <= k < |b| ensures b[k] !in free + Elems(a) {
      var s := b[k];
      assert s in Elems(b);
    }
  }

  /** `inode_deallocate`: exactly the sectors the length covers return to the free map, each once. It
      goes by the length, so what the tables list beyond it does not return. */
  method Deallocate(v: Volume, id: InodeDisk, ghost lay: Layout) returns (ok: bool)
    requires v.Valid() && Good(v.cache.image, v.free, id, lay) && SectorsFor(id.length) <= |lay.data|
    modifies v`free, v.cache`clock, v.cache`disk, v.cache.entries
    ensures ok && v.Valid()
    ensures v.free == old(v.free) + Covered(id, lay, SectorsFor(id.length))
  {
    var n := SectorsFor(id.length);
    ghost var covered := CoveredLayout(lay, n);
    ghost var d, s, x := Direct(covered.data), Single(covered.data), Double(covered.data);
    ReleasePlan(v.cache.image, v.free, id, lay, n, covered, d, s, x);
    var l := Min(n, DIRECT);
    ReleaseEntries(v, id.direct, l, d);
    n := n - l;
    l := Min(n, FAN);
    ReleaseSingle(v, id.indirect, l, s);
    n := n - l;
    l := Min(n, FAN * FAN);
    ReleaseDouble(v, id.doubly, l, covered.subs, x);
    n := n - l;
    ok := true;
  }

  /** What the indirect branch releases; nothing when it is skipped. */
  ghost function SingleBranch(entry: int, ds: seq<int>): set<int> {
    if ds == [] then {} else Elems([entry] + ds)
  }

  ghost function DoubleBranch(entry: int, subs: seq<int>, ds: seq<int>): set<int> {
    if ds == [] then {} else Elems([entry] + (subs + ds))
  }

  /** What the three branches find when their turn comes, and what they release together. */
  lemma ReleasePlan(c: seq<Block>, free: set<int>, id: InodeDisk, lay: Layout, n: nat, covered: Layout,
                    d: seq<int>, s: seq<int>, x: seq<int>)
    requires Good(c, free, id, lay) && n <= |lay.data| && covered == CoveredLayout(lay, n)
    requires d == Direct(covered.data) && s == Single(covered.data) && x == Double(covered.data)
    ensures |d| == Min(n, DIRECT) && |s| == Min(n - |d|, FAN) && |x| == Min(n - |d| - |s|, FAN * FAN)
    ensures |d| <= |id.direct| && id.direct[..|d|] == d && Disjoint(c, free, d)
    ensures s != [] ==> StartsWith(c, id.indirect, s) && Disjoint(c, free + Elems(d), [id.indirect] + s)
    ensures x != [] ==> StartsWith(c, id.doubly, covered.subs) && GroupsStart(c, covered.subs, x)
    ensures x != [] ==>
      Disjoint(c, free + Elems(d) + SingleBranch(id.indirect, s), [id.doubly] + (covered.subs + x))
    ensures Covered(id, lay, n) == Elems(d) + SingleBranch(id.indirect, s) + DoubleBranch(id.doubly, covered.subs, x)
  {
    CoveredDisjoint(c, free, id, lay, n);
    CoveredLists(c, id, lay, n);
    CoveredSizes(c, id, lay, n);
    var id' := CoveredInode(id, n);
    DeallocateParts(c, free, id', covered);
    PartsAre(id', covered, id, n);
  }

  lemma PartsAre(id': InodeDisk, covered: Layout, id: InodeDisk, n: nat)
    requires id' == CoveredInode(id, n) && (Single(covered.data) != [] <==> n > DIRECT)
    requires (Double(covered.data) != [] <==> n > 252) && (n <= 252 ==> covered.subs == [])
    requires (n > DIRECT ==> id.indirect != 0) && (n > 252 ==> id.doubly != 0)
    ensures n > DIRECT ==> SinglePart(id', covered) == [id.indirect] + Single(covered.data)
    ensures n > 252 ==> DoublePart(id', covered) == [id.doubly] + (covered.subs + Double(covered.data))
    ensures Elems(SinglePart(id', covered)) == SingleBranch(id.indirect, Single(covered.data))
    ensures Elems(DoublePart(id', covered)) == DoubleBranch(id.doubly, covered.subs, Double(covered.data))
  {
    if n <= DIRECT {
      assert SinglePart(id', covered) == [];
    }
    if n <= 252 {
      assert DoublePart(id', covered) == [];
    }
  }

  lemma CoveredSizes(c: seq<Block>, id: InodeDisk, lay: Layout, n: nat)
    requires Rep(c, id, lay) && n <= |lay.data|
    ensures var covered := CoveredLayout(lay, n);
            && |Direct(covered.data)| == Min(n, DIRECT)
            && |Single(covered.data)| == Min(n - Min(n, DIRECT), FAN)
            && |Double(covered.data)| == Min(n - Min(n, DIRECT) - Min(n - Min(n, DIRECT), FAN), FAN * FAN)
            && (Single(covered.data) != [] <==> n > DIRECT) && (Double(covered.data) != [] <==> n > 252)
            && (n > DIRECT ==> id.indirect != 0) && (n > 252 ==> id.doubly != 0)
            && (n <= 252 ==> covered.subs == [])
  {
    OwnedCost(c, id, lay);
  }

  /** The indirect branch of `inode_deallocate`, skipped when there is nothing behind it. */
  method ReleaseSingle(v: Volume, entry: int, l: nat, ghost ds: seq<int>)
    requires v.Valid() && l == |ds| && (ds != [] ==> StartsWith(v.cache.image, entry, ds))
    requires ds != [] ==> Disjoint(v.cache.image, v.free, [entry] + ds)
    modifies v`free, v.cache`clock, v.cache`disk, v.cache.entries
    ensures v.Valid() && v.free == old(v.free) + SingleBranch(entry, ds)
  {
    if l > 0 {
      ElemsConcat([entry], ds);
      assert Elems([entry]) == {entry};
      DeallocateIndex(v, entry, l, ds);
    }
  }

  /** The doubly indirect branch of `inode_deallocate`. */
  method ReleaseDouble(v: Volume, entry: int, l: nat, ghost subs: seq<int>, ghost ds: seq<int>)
    requires v.Valid() && l == |ds|
    requires ds != [] ==> StartsWith(v.cache.image, entry, subs) && GroupsStart(v.cache.image, subs, ds)
    requires ds != [] ==> Disjoint(v.cache.image, v.free, [entry] + (subs + ds))
    modifies v`free, v.cache`clock, v.cache`disk, v.cache.entries
    ensures v.Valid() && v.free == old(v.free) + DoubleBranch(entry, subs, ds)
  {
    if l > 0 {
      ElemsConcat([entry], subs + ds);
      ElemsConcat(subs, ds);
      assert Elems([entry]) == {entry};
      DeallocateDouble(v, entry, l, subs, ds);
    }
  }
}
