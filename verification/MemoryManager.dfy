/** The contiguous memory manager of lab8/mm.cpp: first, best and worst fit over address-ordered
    lists of holes and blocks. After any sequence of creations and kills the two lists tile memory. */
module MemoryManager {
  import opened Guard

  datatype Hole = Hole(start: int, size: int)

  datatype Block = Block(pid: int, start: int, size: int)

  datatype Policy = FirstFit | BestFit | WorstFit

  // ----- who owns an address -----

  predicate Spans(start: int, size: int, a: int) {
    start <= a < start + size
  }

  /** How many holes contain address `a`. */
  function HolesAt(f: seq<Hole>, a: int): nat {
    if f == [] then 0
    else HolesAt(f[..|f| - 1], a) + if Spans(f[|f| - 1].start, f[|f| - 1].size, a) then 1 else 0
  }

  function BlocksAt(u: seq<Block>, a: int): nat {
    if u == [] then 0
    else BlocksAt(u[..|u| - 1], a) + if Spans(u[|u| - 1].start, u[|u| - 1].size, a) then 1 else 0
  }

  function One(start: int, size: int, a: int): nat {
    if Spans(start, size, a) then 1 else 0
  }

  lemma {:induction false} HolesConcat(f: seq<Hole>, g: seq<Hole>, a: int)
    ensures HolesAt(f + g, a) == HolesAt(f, a) + HolesAt(g, a)
  {
    if g == [] {
      assert f + g == f;
    } else {
      var n := |g| - 1;
      assert (f + g)[..|f + g| - 1] == f + g[..n];
      HolesConcat(f, g[..n], a);
    }
  }

  lemma {:induction false} BlocksConcat(u: seq<Block>, v: seq<Block>, a: int)
    ensures BlocksAt(u + v, a) == BlocksAt(u, a) + BlocksAt(v, a)
  {
    if v == [] {
      assert u + v == u;
    } else {
      var n := |v| - 1;
      assert (u + v)[..|u + v| - 1] == u + v[..n];
      BlocksConcat(u, v[..n], a);
    }
  }

  lemma HolesSplit(f: seq<Hole>, i: nat, a: int)
    requires i < |f|
    ensures HolesAt(f, a) == HolesAt(f[..i], a) + One(f[i].start, f[i].size, a) + HolesAt(f[i + 1..], a)
  {
    assert f == f[..i] + [f[i]] + f[i + 1..];
    HolesConcat(f[..i] + [f[i]], f[i + 1..], a);
    HolesConcat(f[..i], [f[i]], a);
  }

  lemma BlocksSplit(u: seq<Block>, i: nat, a: int)
    requires i < |u|
    ensures BlocksAt(u, a) == BlocksAt(u[..i], a) + One(u[i].start, u[i].size, a) + BlocksAt(u[i + 1..], a)
  {
    assert u == u[..i] + [u[i]] + u[i + 1..];
    BlocksConcat(u[..i] + [u[i]], u[i + 1..], a);
    BlocksConcat(u[..i], [u[i]], a);
  }

  // ----- the invariant -----

  /** Every address below `n` belongs to exactly one hole or block, no other address to any. */
  ghost predicate Tiled(f: seq<Hole>, u: seq<Block>, n: int) {
    forall a :: HolesAt(f, a) + BlocksAt(u, a) == if 0 <= a < n then 1 else 0
  }

  ghost predicate HolesOrdered(f: seq<Hole>) {
    && (forall i :: 0 <= i < |f| ==> f[i].size > 0)
    && (forall i, j :: 0 <= i < j < |f| ==> f[i].start < f[j].start)
  }

  ghost predicate BlocksOrdered(u: seq<Block>) {
    && (forall i :: 0 <= i < |u| ==> u[i].size > 0)
    && (forall i, j :: 0 <= i < j < |u| ==> u[i].start < u[j].start)
  }

  /** Two holes never share an address. */
  lemma HolesApart(f: seq<Hole>, u: seq<Block>, n: int, i: nat, j: nat, a: int)
    requires Tiled(f, u, n) && i < j < |f| && Spans(f[i].start, f[i].size, a)
    ensures !Spans(f[j].start, f[j].size, a)
  {
    HolesSplit(f, j, a);
    assert f[..j][i] == f[i];
    HolesSplit(f[..j], i, a);
  }

  // ----- policies -----

  /** The hole at `i` is what the policy asks for: the first that fits, the first smallest that
      fits, or the first largest that fits. */
  ghost predicate Chosen(p: Policy, f: seq<Hole>, size: int, i: nat) {
    && i < |f| && f[i].size >= size
    && forall j :: 0 <= j < |f| && f[j].size >= size ==>
         match p
         case FirstFit => i <= j
         case BestFit => f[i].size < f[j].size || (f[i].size == f[j].size && i <= j)
         case WorstFit => f[i].size > f[j].size || (f[i].size == f[j].size && i <= j)
  }

  ghost predicate NoneFits(f: seq<Hole>, size: int) {
    forall j :: 0 <= j < |f| ==> f[j].size < size
  }

  /** `first_fit`. */
  method FindFirst(f: seq<Hole>, size: int) returns (found: bool, i: nat)
    ensures found ==> Chosen(FirstFit, f, size, i)
    ensures !found ==> NoneFits(f, size)
  {
    i := 0;
    while i < |f|
      invariant 0 <= i <= |f|
      invariant forall j :: 0 <= j < i ==> f[j].size < size
    {
      if f[i].size >= size {
        return true, i;
      }
      i := i + 1;
    }
    found := false;
  }

  /** `best_fit`: the bound starts at INT_MAX, which no leftover reaches. */
  method FindBest(f: seq<Hole>, size: int) returns (found: bool, i: nat)
    requires size > 0 && forall j :: 0 <= j < |f| ==> f[j].size <= 0x7FFF_FFFF
    ensures found ==> Chosen(BestFit, f, size, i)
    ensures !found ==> NoneFits(f, size)
  {
    found, i := false, 0;
    var best := 0x7FFF_FFFF;
    for k := 0 to |f|
      invariant found ==> i < k && Chosen(BestFit, f[..k], size, i) && best == f[i].size - size
      invariant !found ==> NoneFits(f[..k], size) && best == 0x7FFF_FFFF
    {
      assert f[..k + 1] == f[..k] + [f[k]];
      if f[k].size - size < best && f[k].size - size >= 0 {
        found, i, best := true, k, f[k].size - size;
      }
    }
    assert f[..|f|] == f;
  }

  /** `worst_fit`. */
  method FindWorst(f: seq<Hole>, size: int) returns (found: bool, i: nat)
    ensures found ==> Chosen(WorstFit, f, size, i)
    ensures !found ==> NoneFits(f, size)
  {
    found, i := false, 0;
    var worst := -1;
    for k := 0 to |f|
      invariant found ==> i < k && Chosen(WorstFit, f[..k], size, i) && worst == f[i].size - size
      invariant !found ==> NoneFits(f[..k], size) && worst == -1
    {
      assert f[..k + 1] == f[..k] + [f[k]];
      if f[k].size - size > worst {
        found, i, worst := true, k, f[k].size - size;
      }
    }
    assert f[..|f|] == f;
  }

  // ----- list edits -----

  /** `insert_allocated`: before the first block at a higher address. */
  method InsertBlock(u: seq<Block>, b: Block) returns (v: seq<Block>)
    requires BlocksOrdered(u) && b.size > 0 && forall i :: 0 <= i < |u| ==> u[i].start != b.start
    ensures BlocksOrdered(v) && forall a :: BlocksAt(v, a) == BlocksAt(u, a) + One(b.start, b.size, a)
    ensures multiset(v) == multiset(u) + multiset{b}
  {
    var k := 0;
    while k < |u| && !(u[k].start > b.start)
      invariant 0 <= k <= |u|
      invariant forall i :: 0 <= i < k ==> u[i].start < b.start
    {
      k := k + 1;
    }
    v := u[..k] + [b] + u[k..];
    InsertedBlock(u, k, b);
  }

  lemma InsertedBlock(u: seq<Block>, k: nat, b: Block)
    requires k <= |u|
    ensures forall a :: BlocksAt(u[..k] + [b] + u[k..], a) == BlocksAt(u, a) + One(b.start, b.size, a)
    ensures multiset(u[..k] + [b] + u[k..]) == multiset(u) + multiset{b}
  {
    assert u == u[..k] + u[k..];
    forall a ensures BlocksAt(u[..k] + [b] + u[k..], a) == BlocksAt(u, a) + One(b.start, b.size, a) {
      BlocksConcat(u[..k], u[k..], a);
      BlocksConcat(u[..k] + [b], u[k..], a);
      BlocksConcat(u[..k], [b], a);
    }
  }

  /** Cutting `size` off the front of hole `i`, or unlinking the hole when it fits exactly. */
  function Carve(f: seq<Hole>, i: nat, size: int): seq<Hole>
    requires i < |f|
  {
    if f[i].size == size then f[..i] + f[i + 1..]
    else f[i := Hole(f[i].start + size, f[i].size - size)]
  }

  lemma CarveAt(f: seq<Hole>, i: nat, size: int, a: int)
    requires i < |f| && 0 < size <= f[i].size
    ensures HolesAt(f, a) == HolesAt(Carve(f, i, size), a) + One(f[i].start, size, a)
  {
    HolesSplit(f, i, a);
    var g := Carve(f, i, size);
    if f[i].size == size {
      HolesConcat(f[..i], f[i + 1..], a);
    } else {
      HolesSplit(g, i, a);
      assert g[..i] == f[..i] && g[i + 1..] == f[i + 1..];
    }
  }

  lemma CarveOrdered(f: seq<Hole>, u: seq<Block>, n: int, i: nat, size: int)
    requires HolesOrdered(f) && Tiled(f, u, n) && i < |f| && 0 < size <= f[i].size
    ensures HolesOrdered(Carve(f, i, size))
  {
    if f[i].size != size {
      var g := Carve(f, i, size);
      forall j | i < j < |f| ensures g[i].start < f[j].start {
        if f[j].start < f[i].start + f[i].size {
          HolesApart(f, u, n, i, j, f[j].start);
        }
      }
    }
  }

  // ----- rearrange -----

  ghost predicate SameHoles(f: seq<Hole>, g: seq<Hole>) {
    |f| == |g| && forall h :: h in f <==> h in g
  }

  /** `g` holds the holes of `f` and one more. */
  ghost predicate OneMore(g: seq<Hole>, f: seq<Hole>, b: Hole) {
    |g| == |f| + 1 && forall h :: h in g <==> h in f || h == b
  }

  lemma SwapSame(f: seq<Hole>, i: nat, j: nat)
    requires i < j < |f|
    ensures SameHoles(f[i := f[j]][j := f[i]], f)
  {
    var g := f[i := f[j]][j := f[i]];
    forall h | h in f ensures h in g {
      var k :| 0 <= k < |f| && f[k] == h;
      assert g[if k == i then j else if k == j then i else k] == h;
    }
  }

  lemma SwapAt(f: seq<Hole>, i: nat, j: nat, a: int)
    requires i < j < |f|
    ensures HolesAt(f[i := f[j]][j := f[i]], a) == HolesAt(f, a)
  {
    var g := f[i := f[j]];
    var h := g[j := f[i]];
    HolesSplit(f, i, a);
    HolesSplit(g, i, a);
    assert g[..i] == f[..i] && g[i + 1..] == f[i + 1..];
    HolesSplit(g, j, a);
    HolesSplit(h, j, a);
    assert h[..j] == g[..j] && h[j + 1..] == g[j + 1..];
  }

  /** The exchange sort of `rearrange`: by address, the same holes. */
  method SortHoles(f0: seq<Hole>) returns (f: seq<Hole>)
    requires forall i :: 0 <= i < |f0| ==> f0[i].size > 0
    ensures |f| == |f0| && (forall i :: 0 <= i < |f| ==> f[i].size > 0)
    ensures forall i, j :: 0 <= i < j < |f| ==> f[i].start <= f[j].start
    ensures SameHoles(f, f0) && forall a :: HolesAt(f, a) == HolesAt(f0, a)
  {
    f := f0;
    for i := 0 to |f0|
      invariant SameHoles(f, f0)
      invariant |f| == |f0| && (forall k :: 0 <= k < |f| ==> f[k].size > 0)
      invariant forall a :: HolesAt(f, a) == HolesAt(f0, a)
      invariant forall k, m :: 0 <= k < i && k < m < |f| ==> f[k].start <= f[m].start
    {
      f := Settle(f, i);
    }
  }

  /** The inner loop: bring the lowest remaining hole to position `i`. */
  method Settle(f0: seq<Hole>, i: nat) returns (f: seq<Hole>)
    requires i < |f0| && (forall k :: 0 <= k < |f0| ==> f0[k].size > 0)
    requires forall k, m :: 0 <= k < i && k < m < |f0| ==> f0[k].start <= f0[m].start
    ensures |f| == |f0| && (forall k :: 0 <= k < |f| ==> f[k].size > 0)
    ensures forall k, m :: 0 <= k <= i && k < m < |f| ==> f[k].start <= f[m].start
    ensures SameHoles(f, f0) && forall a :: HolesAt(f, a) == HolesAt(f0, a)
  {
    f := f0;
    for j := i + 1 to |f0|
      invariant |f| == |f0| && (forall k :: 0 <= k < |f| ==> f[k].size > 0)
      invariant forall k, m :: 0 <= k < i && k < m < |f| ==> f[k].start <= f[m].start
      invariant forall m :: i < m < j ==> f[i].start <= f[m].start
      invariant SameHoles(f, f0)
      invariant forall a :: HolesAt(f, a) == HolesAt(f0, a)
    {
      if f[j].start < f[i].start {
        forall a ensures HolesAt(f[i := f[j]][j := f[i]], a) == HolesAt(f, a) {
          SwapAt(f, i, j, a);
        }
        SwapSame(f, i, j);
        f := f[i := f[j]][j := f[i]];
      }
    }
  }

  /** Joining hole `i` with its neighbour. */
  function Join(f: seq<Hole>, i: nat): seq<Hole>
    requires i + 1 < |f|
  {
    f[..i] + [Hole(f[i].start, f[i].size + f[i + 1].size)] + f[i + 2..]
  }

  lemma JoinAt(f: seq<Hole>, i: nat, a: int)
    requires i + 1 < |f| && f[i].start + f[i].size == f[i + 1].start && f[i].size > 0 && f[i + 1].size > 0
    ensures HolesAt(Join(f, i), a) == HolesAt(f, a)
  {
    var g := Join(f, i);
    HolesSplit(f, i, a);
    HolesSplit(f[i + 1..], 0, a);
    assert f[i + 1..][1..] == f[i + 2..] && f[i + 1..][..0] == [];
    HolesSplit(g, i, a);
    assert g[..i] == f[..i] && g[i + 1..] == f[i + 2..];
  }

  /** Hole `i` ends where the next one starts. */
  predicate Touch(f: seq<Hole>, i: nat) {
    i + 1 < |f| && f[i].start + f[i].size == f[i + 1].start
  }

  /** One pass from position `i` on that steps past each merged pair. */
  function Merged(f: seq<Hole>, i: nat): seq<Hole>
    decreases |f| - i
  {
    if i + 1 >= |f| then f
    else Merged(if Touch(f, i) then Join(f, i) else f, i + 1)
  }

  ghost predicate NoneTouch(f: seq<Hole>, i: nat) {
    forall j: nat :: i <= j ==> !Touch(f, j)
  }

  /** No three holes in a row touch. */
  ghost predicate NoTriple(f: seq<Hole>, i: nat) {
    forall j: nat :: i <= j && Touch(f, j) ==> !Touch(f, j + 1)
  }

  /** The pass leaves what it has stepped past, and where the hole under it starts. */
  lemma {:induction false} MergedKeeps(f: seq<Hole>, i: nat)
    requires i < |f|
    ensures i < |Merged(f, i)| && Merged(f, i)[..i] == f[..i] && Merged(f, i)[i].start == f[i].start
    ensures i + 1 == |f| ==> Merged(f, i) == f
    decreases |f| - i
  {
    if i + 1 < |f| {
      var g := if Touch(f, i) then Join(f, i) else f;
      assert g[..i] == f[..i];
      if i + 1 < |g| {
        MergedKeeps(g, i + 1);
        assert Merged(g, i + 1)[..i] == Merged(g, i + 1)[..i + 1][..i];
        assert Merged(g, i + 1)[i] == Merged(g, i + 1)[..i + 1][i] == g[i];
      }
    }
  }

  /** Whether the pass leaves a hole touching the one it has just stepped past. */
  lemma {:induction false} BoundaryStays(g: seq<Hole>, i: nat)
    requires i < |g|
    ensures Touch(Merged(g, i + 1), i) <==> Touch(g, i)
  {
    if i + 1 < |g| {
      MergedKeeps(g, i + 1);
      assert Merged(g, i + 1)[i] == Merged(g, i + 1)[..i + 1][i] == g[i];
    }
  }

  lemma {:induction false} JoinShifts(f: seq<Hole>, i: nat)
    requires Touch(f, i)
    ensures forall j: nat :: i <= j ==> (Touch(Join(f, i), j) <==> Touch(f, j + 1))
  {
    var g := Join(f, i);
    assert forall j :: i < j < |g| ==> g[j] == f[j + 1];
  }

  lemma {:induction false} MergedFrom(f: seq<Hole>, i: nat)
    ensures NoneTouch(Merged(f, i), i) <==> NoTriple(f, i)
    decreases |f| - i
  {
    if i + 1 < |f| {
      if Touch(f, i) {
        var g := Join(f, i);
        JoinShifts(f, i);
        MergedFrom(g, i + 1);
        BoundaryStays(g, i);
        TripleAfterJoin(f, g, i);
        NoneTouchSplit(Merged(f, i), i);
      } else {
        MergedFrom(f, i + 1);
        BoundaryStays(f, i);
        NoneTouchSplit(Merged(f, i), i);
        assert NoTriple(f, i) <==> NoTriple(f, i + 1);
      }
    }
  }

  lemma NoneTouchSplit(f: seq<Hole>, i: nat)
    ensures NoneTouch(f, i) <==> !Touch(f, i) && NoneTouch(f, i + 1)
  {
  }

  lemma TripleAfterJoin(f: seq<Hole>, g: seq<Hole>, i: nat)
    requires Touch(f, i) && forall j: nat :: i <= j ==> (Touch(g, j) <==> Touch(f, j + 1))
    ensures NoTriple(f, i) <==> !Touch(g, i) && NoTriple(g, i + 1)
  {
    if !Touch(g, i) && NoTriple(g, i + 1) {
      forall j: nat | i <= j && Touch(f, j) ensures !Touch(f, j + 1) {
        assert Touch(g, j) <==> Touch(f, j + 1);
        if j > i + 1 {
          assert Touch(g, j - 1) <==> Touch(f, j - 1 + 1);
        }
      }
    }
    if NoTriple(f, i) {
      assert !Touch(f, i + 1);
      forall j: nat | i + 1 <= j && Touch(g, j) ensures !Touch(g, j + 1) {
        assert Touch(f, j + 1);
      }
    }
  }

  /** One pass joins all touching holes exactly when no three in a row touch; three such holes are
      left as two. */
  lemma MergedExact(f: seq<Hole>)
    ensures NoneTouch(Merged(f, 0), 0) <==> NoTriple(f, 0)
    ensures Merged([Hole(0, 1), Hole(1, 1), Hole(2, 1)], 0) == [Hole(0, 2), Hole(2, 1)]
  {
    MergedFrom(f, 0);
    var three := [Hole(0, 1), Hole(1, 1), Hole(2, 1)];
    assert Join(three, 0) == [Hole(0, 2), Hole(2, 1)];
    assert Merged(Join(three, 0), 1) == Join(three, 0);
  }

  /** Ordered lists of the same holes are the same list. */
  lemma {:induction false} OrderedUnique(f: seq<Hole>, g: seq<Hole>)
    requires HolesOrdered(f) && HolesOrdered(g) && SameHoles(f, g)
    ensures f == g
  {
    if f != [] {
      SameFirst(f, g);
      TailHoles(f);
      TailHoles(g);
      assert SameHoles(f[1..], g[1..]);
      OrderedUnique(f[1..], g[1..]);
      assert f == [f[0]] + f[1..] && g == [g[0]] + g[1..];
    }
  }

  lemma SameFirst(f: seq<Hole>, g: seq<Hole>)
    requires HolesOrdered(f) && HolesOrdered(g) && SameHoles(f, g) && f != []
    ensures f[0] == g[0]
  {
    assert f[0] in g && g[0] in f;
    var p :| 0 <= p < |g| && g[p] == f[0];
    var q :| 0 <= q < |f| && f[q] == g[0];
  }

  lemma TailHoles(f: seq<Hole>)
    requires HolesOrdered(f) && f != []
    ensures HolesOrdered(f[1..]) && forall h :: h in f[1..] <==> h in f && h != f[0]
  {
    assert f == [f[0]] + f[1..];
  }

  /** Leaving one hole out of an ordered list. */
  lemma RestHoles(g: seq<Hole>, k: nat)
    requires HolesOrdered(g) && k < |g|
    ensures var rest := g[..k] + g[k + 1..];
            HolesOrdered(rest) && forall h :: h in rest <==> h in g && h != g[k]
  {
    var rest := g[..k] + g[k + 1..];
    forall h | h in g && h != g[k] ensures h in rest {
      var i :| 0 <= i < |g| && g[i] == h;
      assert rest[if i < k then i else i - 1] == h;
    }
  }

  /** Where the freed hole stands among the others. */
  lemma {:induction false} InsertedAt(f: seq<Hole>, g: seq<Hole>, b: Hole) returns (k: nat)
    requires HolesOrdered(f) && HolesOrdered(g) && OneMore(g, f, b) && b !in f
    ensures k <= |f| && g == f[..k] + [b] + f[k..]
  {
    assert b in g;
    k :| 0 <= k < |g| && g[k] == b;
    RestHoles(g, k);
    OrderedUnique(g[..k] + g[k + 1..], f);
    assert f[..k] == g[..k] && f[k..] == g[k + 1..];
  }

  ghost predicate EndsAt(f: seq<Hole>, a: int) {
    exists i :: 0 <= i < |f| && f[i].start + f[i].size == a
  }

  ghost predicate StartsAt(f: seq<Hole>, a: int) {
    exists i :: 0 <= i < |f| && f[i].start == a
  }

  /** The new hole's neighbours in the list are its neighbours in memory. */
  lemma {:induction false} Neighbours(f: seq<Hole>, u: seq<Block>, n: int, g: seq<Hole>, b: Hole, k: nat)
    requires HolesOrdered(g) && Tiled(g, u, n) && k <= |f| && g == f[..k] + [b] + f[k..]
    ensures k > 0 && Touch(g, k - 1) <==> EndsAt(f, b.start)
    ensures Touch(g, k) <==> StartsAt(f, b.start + b.size)
  {
    if EndsAt(f, b.start) {
      var i :| 0 <= i < |f| && f[i].start + f[i].size == b.start;
      assert f[i] == g[if i < k then i else i + 1];
      assert i < k;
      if i < k - 1 {
        HolesApart(g, u, n, i, i + 1, g[i + 1].start);
      }
    }
    if k > 0 && Touch(g, k - 1) {
      assert f[k - 1] == g[k - 1];
    }
    if StartsAt(f, b.start + b.size) {
      var i :| 0 <= i < |f| && f[i].start == b.start + b.size;
      assert f[i] == g[if i < k then i else i + 1];
      assert i >= k;
      if i > k {
        HolesApart(g, u, n, k, k + 1, g[k + 1].start);
      }
    }
    if Touch(g, k) {
      assert f[k] == g[k + 1];
    }
  }

  /** Inserting one hole among holes that do not touch makes three in a row only around it. */
  lemma {:induction false} TripleAround(f: seq<Hole>, g: seq<Hole>, b: Hole, k: nat)
    requires NoneTouch(f, 0) && k <= |f| && g == f[..k] + [b] + f[k..]
    ensures NoTriple(g, 0) <==> !(k > 0 && Touch(g, k - 1) && Touch(g, k))
  {
    forall j: nat | j + 1 < k ensures !Touch(g, j) {
      assert g[j] == f[j] && g[j + 1] == f[j + 1] && !Touch(f, j);
    }
    forall j: nat | j > k ensures !Touch(g, j) {
      assert !Touch(f, j - 1);
      if j + 1 < |g| {
        assert g[j] == f[j - 1] && g[j + 1] == f[j];
      }
    }
    if k > 0 && Touch(g, k - 1) && Touch(g, k) {
      assert !NoTriple(g, 0) by {
        assert Touch(g, k - 1) && Touch(g, k - 1 + 1);
      }
    }
  }

  /** If no holes touch, then after a block is freed none do, unless it lay between two holes. */
  lemma FreedExact(f: seq<Hole>, u: seq<Block>, n: int, g: seq<Hole>, b: Hole)
    requires HolesOrdered(f) && NoneTouch(f, 0) && HolesOrdered(g) && Tiled(g, u, n)
    requires OneMore(g, f, b) && b !in f
    ensures NoneTouch(Merged(g, 0), 0) <==> !(EndsAt(f, b.start) && StartsAt(f, b.start + b.size))
  {
    var k := InsertedAt(f, g, b);
    Neighbours(f, u, n, g, b, k);
    TripleAround(f, g, b, k);
    MergedExact(g);
  }

  /** The single merging pass of `rearrange`. */
  method MergeHoles(f0: seq<Hole>) returns (f: seq<Hole>)
    requires HolesOrdered(f0)
    ensures HolesOrdered(f) && forall a :: HolesAt(f, a) == HolesAt(f0, a)
    ensures f == Merged(f0, 0)
  {
    f := f0;
    var i := 0;
    while i + 1 < |f|
      invariant HolesOrdered(f) && forall a :: HolesAt(f, a) == HolesAt(f0, a)
      invariant Merged(f, i) == Merged(f0, 0)
      decreases |f| - i
    {
      if f[i].start + f[i].size == f[i + 1].start {
        forall a ensures HolesAt(Join(f, i), a) == HolesAt(f, a) {
          JoinAt(f, i, a);
        }
        f := Join(f, i);
      }
      i := i + 1;
    }
  }

  /** In a tiling, ascending addresses are strictly ascending. */
  lemma StrictlyOrdered(f: seq<Hole>, u: seq<Block>, n: int)
    requires Tiled(f, u, n) && (forall i :: 0 <= i < |f| ==> f[i].size > 0)
    requires forall i, j :: 0 <= i < j < |f| ==> f[i].start <= f[j].start
    ensures HolesOrdered(f)
  {
    forall i, j | 0 <= i < j < |f| ensures f[i].start < f[j].start {
      HolesApart(f, u, n, i, j, f[i].start);
    }
  }

  /** Holes lie inside memory. */
  lemma HoleInside(f: seq<Hole>, u: seq<Block>, n: int, i: nat)
    requires Tiled(f, u, n) && i < |f| && f[i].size > 0
    ensures 0 <= f[i].start && f[i].start + f[i].size <= n
  {
    HolesSplit(f, i, f[i].start);
    HolesSplit(f, i, f[i].start + f[i].size - 1);
  }

  /** A hole and a block never share an address. */
  lemma HoleApartFromBlock(f: seq<Hole>, u: seq<Block>, n: int, i: nat, j: nat, a: int)
    requires Tiled(f, u, n) && i < |f| && j < |u| && Spans(f[i].start, f[i].size, a)
    ensures !Spans(u[j].start, u[j].size, a)
  {
    HolesSplit(f, i, a);
    BlocksSplit(u, j, a);
  }

  lemma BlockIsNoHole(f: seq<Hole>, u: seq<Block>, n: int, j: nat)
    requires Tiled(f, u, n) && HolesOrdered(f) && j < |u| && u[j].size > 0
    ensures Hole(u[j].start, u[j].size) !in f
  {
    forall i | 0 <= i < |f| ensures f[i].start != u[j].start {
      HoleApartFromBlock(f, u, n, i, j, f[i].start);
    }
  }

  /** The freed hole is first linked in behind the head. */
  lemma SecondPlace(f: seq<Hole>, h: Hole)
    requires f != []
    ensures OneMore([f[0], h] + f[1..], f, h)
    ensures forall a :: HolesAt([f[0], h] + f[1..], a) == HolesAt(f, a) + One(h.start, h.size, a)
  {
    var g := [f[0], h] + f[1..];
    assert f == [f[0]] + f[1..];
    forall a ensures HolesAt(g, a) == HolesAt(f, a) + One(h.start, h.size, a) {
      HolesSplit(g, 1, a);
      assert g[..1] == [f[0]] && g[2..] == f[1..];
      HolesConcat([f[0]], f[1..], a);
    }
  }

  // ----- no memory is lost -----

  function HoleBytes(f: seq<Hole>): int {
    if f == [] then 0 else HoleBytes(f[..|f| - 1]) + f[|f| - 1].size
  }

  function BlockBytes(u: seq<Block>): int {
    if u == [] then 0 else BlockBytes(u[..|u| - 1]) + u[|u| - 1].size
  }

  /** Addresses below `n` that lie in [start, start + size). */
  function Overlap(start: int, size: int, n: nat): nat {
    if n == 0 then 0 else Overlap(start, size, n - 1) + One(start, size, n - 1)
  }

  lemma {:induction false} OverlapIs(start: int, size: int, n: nat)
    requires 0 <= start && 0 <= size
    ensures Overlap(start, size, n) == if n <= start then 0 else if n <= start + size then n - start else size
  {
    if n > 0 {
      OverlapIs(start, size, n - 1);
    }
  }

  function HoleCover(f: seq<Hole>, n: nat): nat {
    if n == 0 then 0 else HoleCover(f, n - 1) + HolesAt(f, n - 1)
  }

  function BlockCover(u: seq<Block>, n: nat): nat {
    if n == 0 then 0 else BlockCover(u, n - 1) + BlocksAt(u, n - 1)
  }

  lemma {:induction false} HoleCoverGrows(f: seq<Hole>, n: nat)
    requires f != []
    ensures HoleCover(f, n) == HoleCover(f[..|f| - 1], n) + Overlap(f[|f| - 1].start, f[|f| - 1].size, n)
  {
    if n > 0 {
      HoleCoverGrows(f, n - 1);
    }
  }

  lemma {:induction false} BlockCoverGrows(u: seq<Block>, n: nat)
    requires u != []
    ensures BlockCover(u, n) == BlockCover(u[..|u| - 1], n) + Overlap(u[|u| - 1].start, u[|u| - 1].size, n)
  {
    if n > 0 {
      BlockCoverGrows(u, n - 1);
    }
  }

  lemma {:induction false} HoleCoverIs(f: seq<Hole>, n: nat)
    requires forall i :: 0 <= i < |f| ==> 0 <= f[i].start && 0 < f[i].size && f[i].start + f[i].size <= n
    ensures HoleCover(f, n) == HoleBytes(f)
  {
    if f == [] {
      NothingCovered(n);
    } else {
      HoleCoverGrows(f, n);
      OverlapIs(f[|f| - 1].start, f[|f| - 1].size, n);
      HoleCoverIs(f[..|f| - 1], n);
    }
  }

  lemma {:induction false} BlockCoverIs(u: seq<Block>, n: nat)
    requires forall i :: 0 <= i < |u| ==> 0 <= u[i].start && 0 < u[i].size && u[i].start + u[i].size <= n
    ensures BlockCover(u, n) == BlockBytes(u)
  {
    if u == [] {
      NothingCovered(n);
    } else {
      BlockCoverGrows(u, n);
      OverlapIs(u[|u| - 1].start, u[|u| - 1].size, n);
      BlockCoverIs(u[..|u| - 1], n);
    }
  }

  lemma {:induction false} NothingCovered(n: nat)
    ensures HoleCover([], n) == 0 && BlockCover([], n) == 0
  {
    if n > 0 {
      NothingCovered(n - 1);
    }
  }

  lemma {:induction false} CoverIsAll(f: seq<Hole>, u: seq<Block>, n: nat, m: nat)
    requires Tiled(f, u, n) && m <= n
    ensures HoleCover(f, m) + BlockCover(u, m) == m
  {
    if m > 0 {
      CoverIsAll(f, u, n, m - 1);
    }
  }

  /** Free and allocated bytes always add up to the size of memory. */
  lemma BytesConserved(f: seq<Hole>, u: seq<Block>, n: nat)
    requires HolesOrdered(f) && BlocksOrdered(u) && Tiled(f, u, n)
    ensures HoleBytes(f) + BlockBytes(u) == n
  {
    forall i | 0 <= i < |f| ensures 0 <= f[i].start && f[i].start + f[i].size <= n {
      HoleInside(f, u, n, i);
    }
    forall i | 0 <= i < |u| ensures 0 <= u[i].start && u[i].start + u[i].size <= n {
      BlockInside(f, u, n, i);
    }
    HoleCoverIs(f, n);
    BlockCoverIs(u, n);
    CoverIsAll(f, u, n, n);
  }

  /** Blocks lie inside memory. */
  lemma BlockInside(f: seq<Hole>, u: seq<Block>, n: int, i: nat)
    requires Tiled(f, u, n) && i < |u| && u[i].size > 0
    ensures 0 <= u[i].start && u[i].start + u[i].size <= n
  {
    BlocksSplit(u, i, u[i].start);
    BlocksSplit(u, i, u[i].start + u[i].size - 1);
  }

  /** The block has a hole right before it and one right after it. */
  ghost predicate Between(f: seq<Hole>, b: Block) {
    EndsAt(f, b.start) && StartsAt(f, b.start + b.size)
  }

  // ----- the manager -----

  datatype Command = Switch(policy: Policy) | New(size: int) | End(id: int)

  datatype Memory = Memory(free: seq<Hole>, used: seq<Block>, policy: Policy, pid: int)

  /** The policy the last switch among the first `n` commands asked for. */
  function InForce(commands: seq<Command>, n: nat, start: Policy): Policy
    requires n <= |commands|
  {
    if n == 0 then start
    else if commands[n - 1].Switch? then commands[n - 1].policy
    else InForce(commands, n - 1, start)
  }

  /** `t` is `s` with a process of the given size put into the hole at `i`. */
  ghost predicate Placed(s: Memory, t: Memory, size: int, i: nat) {
    && Chosen(s.policy, s.free, size, i) && t.free == Carve(s.free, i, size)
    && multiset(t.used) == multiset(s.used) + multiset{Block(s.pid + 1, s.free[i].start, size)}
    && t.policy == s.policy && t.pid == s.pid + 1
  }

  /** `t` is `s` without the block at `k`, whose extent has joined the holes in order and been merged
      with them in one pass. */
  ghost predicate Without(s: Memory, t: Memory, id: int, k: nat, g: seq<Hole>) {
    && k < |s.used| && s.used[k].pid == id && (forall j :: 0 <= j < k ==> s.used[j].pid != id)
    && HolesOrdered(g) && OneMore(g, s.free, Hole(s.used[k].start, s.used[k].size)) && t.free == Merged(g, 0)
    && t.used == Dispose(s.used, k) && t.policy == s.policy && t.pid == s.pid
  }

  /** The same, unfolded only where a proof calls `RemovedIs`. */
  ghost predicate Removed(s: Memory, t: Memory, id: int, k: nat, g: seq<Hole>) {
    forall r :: Is(r, t) ==> Without(s, r, id, k, g)
  }

  lemma RemovedIs(s: Memory, t: Memory, id: int, k: nat, g: seq<Hole>)
    ensures Removed(s, t, id, k, g) <==> Without(s, t, id, k, g)
  {
    assert Is(t, t);
  }

  /** What one menu command does. */
  ghost predicate Transition(s: Memory, c: Command, t: Memory) {
    match c
    case Switch(p) => t == s.(policy := p)
    case New(size) =>
      if size <= 0 then t == s
      else if NoneFits(s.free, size) then t == s.(pid := s.pid + 1)
      else exists i: nat :: Placed(s, t, size, i)
    case End(id) =>
      if forall j :: 0 <= j < |s.used| ==> s.used[j].pid != id then t == s
      else exists k: nat, g :: Removed(s, t, id, k, g)
  }

  lemma WasRemoved(s: Memory, t: Memory, id: int, k: nat, g: seq<Hole>)
    requires k < |s.used| && s.used[k].pid == id && (forall j :: 0 <= j < k ==> s.used[j].pid != id)
    requires HolesOrdered(g) && OneMore(g, s.free, Hole(s.used[k].start, s.used[k].size)) && t.free == Merged(g, 0)
    requires t == s.(free := t.free, used := Dispose(s.used, k))
    ensures Removed(s, t, id, k, g)
  {
    RemovedIs(s, t, id, k, g);
  }

  ghost predicate TransitionAt(trace: seq<Memory>, commands: seq<Command>, i: nat, start: Policy)
    requires i < |commands| && i + 1 < |trace|
  {
    trace[i].policy == InForce(commands, i, start) && Transition(trace[i], commands[i], trace[i + 1])
  }

  class Manager {
    const memSize: int
    var free: seq<Hole>
    var used: seq<Block>
    var policy: Policy
    var pid: int

    ghost function State(): Memory
      reads this
    {
      Memory(free, used, policy, pid)
    }

    ghost predicate Valid()
      reads this
    {
      && 0 < memSize <= 0x7FFF_FFFF
      && HolesOrdered(free) && BlocksOrdered(used) && Tiled(free, used, memSize)
      && forall i :: 0 <= i < |used| ==> used[i].pid <= pid
    }

    /** `init_free_block` with `set_mem_size`: one hole over all of memory. */
    constructor (size: int)
      requires 0 < size <= 0x7FFF_FFFF
      ensures Valid() && memSize == size && State() == Memory([Hole(0, size)], [], FirstFit, 0)
    {
      memSize, free, used, policy, pid := size, [Hole(0, size)], [], FirstFit, 0;
      new;
      assert forall a :: HolesAt([Hole(0, size)], a) == One(0, size, a) by {
        forall a ensures HolesAt([Hole(0, size)], a) == One(0, size, a) {
          HolesSplit([Hole(0, size)], 0, a);
        }
      }
    }

    /** The policy in force, applied to the holes. */
    method FindHole(size: int) returns (found: bool, i: nat)
      requires Valid() && size > 0
      ensures found ==> Chosen(policy, free, size, i)
      ensures !found ==> NoneFits(free, size)
    {
      match policy
      case FirstFit => found, i := FindFirst(free, size);
      case BestFit =>
        forall j | 0 <= j < |free| ensures free[j].size <= 0x7FFF_FFFF {
          HoleInside(free, used, memSize, j);
        }
        found, i := FindBest(free, size);
      case WorstFit => found, i := FindWorst(free, size);
    }

    /** `allocate_mem`: take the chosen hole's front for the process, or fail when no hole fits. */
    method Allocate(id: int, size: int) returns (ok: bool, ghost i: nat)
      requires Valid() && size > 0 && id <= pid
      modifies this`free, this`used
      ensures Valid()
      ensures !ok <==> old(NoneFits(free, size))
      ensures !ok ==> free == old(free) && used == old(used)
      ensures ok ==> Chosen(policy, old(free), size, i) && free == Carve(old(free), i, size)
      ensures ok ==> multiset(used) == multiset(old(used)) + multiset{Block(id, old(free)[i].start, size)}
    {
      var at;
      ok, at := FindHole(size);
      i := at;
      if ok {
        var b := Block(id, free[at].start, size);
        CarveOrdered(free, used, memSize, at, size);
        forall a ensures HolesAt(free, a) == HolesAt(Carve(free, at, size), a) + One(b.start, size, a) {
          CarveAt(free, at, size, a);
        }
        forall j | 0 <= j < |used| ensures used[j].start != b.start {
          HoleApartFromBlock(free, used, memSize, at, j, b.start);
        }
        TakeHole(at, b);
      }
    }

    /** The list updates of `allocate_mem`. */
    method TakeHole(at: nat, b: Block)
      requires Valid() && at < |free| && 0 < b.size <= free[at].size && b.start == free[at].start && b.pid <= pid
      requires HolesOrdered(Carve(free, at, b.size)) && forall j :: 0 <= j < |used| ==> used[j].start != b.start
      requires forall a :: HolesAt(free, a) == HolesAt(Carve(free, at, b.size), a) + One(b.start, b.size, a)
      modifies this`free, this`used
      ensures Valid() && free == Carve(old(free), at, b.size) && multiset(used) == multiset(old(used)) + multiset{b}
    {
      if free[at].size == b.size {
        free := free[..at] + free[at + 1..];
      } else {
        free := free[at := Hole(free[at].start + b.size, free[at].size - b.size)];
      }
      used := InsertBlock(used, b);
      SamePids(old(used), used, b, pid);
    }

    /** `create_new_process`: sizes must be positive; a pid is spent even when nothing fits. */
    method Create(size: int) returns (result: int, ok: bool, ghost i: nat)
      requires Valid()
      modifies this`free, this`used, this`pid
      ensures Valid()
      ensures size <= 0 ==> result == -1 && !ok && pid == old(pid)
      ensures size > 0 ==> result == pid == old(pid) + 1 && (ok <==> old(!NoneFits(free, size)))
      ensures !ok ==> free == old(free) && used == old(used)
      ensures ok ==> Chosen(policy, old(free), size, i) && free == Carve(old(free), i, size)
      ensures ok ==> multiset(used) == multiset(old(used)) + multiset{Block(pid, old(free)[i].start, size)}
    {
      if size <= 0 {
        return -1, false, 0;
      }
      pid := pid + 1;
      ok, i := Allocate(pid, size);
      result := pid;
    }

    /** `find_process`. */
    method FindProcess(id: int) returns (k: int)
      ensures -1 <= k < |used|
      ensures k >= 0 ==> used[k].pid == id && forall j :: 0 <= j < k ==> used[j].pid != id
      ensures k == -1 ==> forall j :: 0 <= j < |used| ==> used[j].pid != id
    {
      for j := 0 to |used|
        invariant forall m :: 0 <= m < j ==> used[m].pid != id
      {
        if used[j].pid == id {
          return j;
        }
      }
      return -1;
    }

    /** `free_mem`: the block's extent becomes a hole; holes are sorted and neighbours merged once. */
    method FreeMem(b: Block) returns (f: seq<Hole>)
      requires HolesOrdered(free) && b.size > 0
      ensures forall i :: 0 <= i < |f| ==> f[i].size > 0
      ensures forall i, j :: 0 <= i < j < |f| ==> f[i].start <= f[j].start
      ensures OneMore(f, free, Hole(b.start, b.size))
      ensures forall a :: HolesAt(f, a) == HolesAt(free, a) + One(b.start, b.size, a)
    {
      var hole := Hole(b.start, b.size);
      if free == [] {
        f := [hole];
        forall a ensures HolesAt(f, a) == One(b.start, b.size, a) {
          HolesSplit(f, 0, a);
        }
      } else {
        f := [free[0], hole] + free[1..];
        SecondPlace(free, hole);
        f := SortHoles(f);
      }
    }

    /** The hole list after the block at `at` is freed. */
    method FreedHoles(at: nat) returns (f: seq<Hole>, ghost g: seq<Hole>)
      requires Valid() && at < |used|
      ensures HolesOrdered(g) && OneMore(g, free, Hole(used[at].start, used[at].size)) && f == Merged(g, 0)
      ensures HolesOrdered(f) && Tiled(f, Dispose(used, at), memSize)
      ensures forall a :: HolesAt(f, a) == HolesAt(free, a) + One(used[at].start, used[at].size, a)
      ensures NoneTouch(free, 0) ==> (NoneTouch(f, 0) <==> !Between(free, used[at]))
    {
      var b := used[at];
      f := FreeMem(b);
      DisposeTiled(free, f, used, at, memSize);
      StrictlyOrdered(f, Dispose(used, at), memSize);
      if NoneTouch(free, 0) {
        BlockIsNoHole(free, used, memSize, at);
        FreedExact(free, Dispose(used, at), memSize, f, Hole(b.start, b.size));
      }
      g := f;
      f := MergeHoles(f);
    }

    /** The list updates of `kill_process` for the block at `at`. */
    method KillAt(at: nat) returns (ghost g: seq<Hole>)
      requires Valid() && at < |used| && forall j :: 0 <= j < at ==> used[j].pid != used[at].pid
      modifies this`free, this`used
      ensures Valid() && used == Dispose(old(used), at)
      ensures Removed(old(State()), State(), old(used)[at].pid, at, g)
      ensures forall a :: HolesAt(free, a) == old(HolesAt(free, a)) + One(old(used)[at].start, old(used)[at].size, a)
      ensures old(NoneTouch(free, 0)) ==> (NoneTouch(free, 0) <==> !Between(old(free), old(used)[at]))
    {
      DisposeOrdered(used, at);
      ghost var s := State();
      free, g := FreedHoles(at);
      used := used[..at] + used[at + 1..];
      WasRemoved(s, State(), s.used[at].pid, at, g);
    }

    /** `kill_process`: the first block of the process disappears and exactly its addresses become
        free; a process that owns nothing changes nothing. */
    method Kill(id: int) returns (ok: bool, ghost k: int, ghost g: seq<Hole>)
      requires Valid()
      modifies this`free, this`used
      ensures Valid()
      ensures !ok <==> old(forall j :: 0 <= j < |used| ==> used[j].pid != id)
      ensures !ok ==> free == old(free) && used == old(used)
      ensures ok ==> 0 <= k < |old(used)| && Removed(old(State()), State(), id, k, g)
      ensures ok ==>
        forall a :: HolesAt(free, a) == old(HolesAt(free, a)) + One(old(used)[k].start, old(used)[k].size, a)
      ensures ok && old(NoneTouch(free, 0)) ==> (NoneTouch(free, 0) <==> !Between(old(free), old(used)[k]))
    {
      var at := FindProcess(id);
      ok, k, g := at >= 0, at, [];
      if ok {
        g := KillAt(at);
      }
    }

    /** One menu command. */
    method Execute(c: Command)
      requires Valid()
      modifies this`free, this`used, this`policy, this`pid
      ensures Valid() && Transition(old(State()), c, State())
    {
      match c
      case Switch(p) => policy := p;
      case New(size) =>
        ghost var s := State();
        var _, ok, i := Create(size);
        assert ok ==> Placed(s, State(), size, i);
      case End(id) =>
        ghost var s := State();
        var ok, k, g := Kill(id);
        assert ok ==> Removed(s, State(), id, k, g);
    }

    /** Any menu session: every command does what it should under the policy last asked for, memory stays
        tiled, and not a byte is lost. */
    method Session(commands: seq<Command>) returns (ghost trace: seq<Memory>)
      requires Valid()
      modifies this`free, this`used, this`policy, this`pid
      ensures Valid() && HoleBytes(free) + BlockBytes(used) == memSize
      ensures |trace| == |commands| + 1 && trace[0] == old(State()) && trace[|commands|] == State()
      ensures forall i :: 0 <= i < |commands| ==> TransitionAt(trace, commands, i, old(policy))
    {
      trace := [State()];
      for i := 0 to |commands|
        invariant Valid() && |trace| == i + 1 && trace[0] == old(State()) && trace[i] == State()
        invariant policy == InForce(commands, i, old(policy))
        invariant forall j :: 0 <= j < i ==> TransitionAt(trace, commands, j, old(policy))
      {
        ghost var before := trace;
        Execute(commands[i]);
        trace := trace + [State()];
        TraceGrows(before, trace, commands, i, old(policy));
      }
      BytesConserved(free, used, memSize);
    }
  }

  lemma PolicyAfter(s: Memory, c: Command, t: Memory)
    requires Transition(s, c, t)
    ensures t.policy == if c.Switch? then c.policy else s.policy
  {
    if c.End? && t != s {
      var k: nat, g :| Removed(s, t, c.id, k, g);
      RemovedIs(s, t, c.id, k, g);
    }
  }

  lemma TraceGrows(before: seq<Memory>, trace: seq<Memory>, commands: seq<Command>, i: nat, start: Policy)
    requires i < |commands| && |before| == i + 1 && |trace| == i + 2 && before == trace[..i + 1]
    requires forall j :: 0 <= j < i ==> TransitionAt(before, commands, j, start)
    requires before[i].policy == InForce(commands, i, start) && Transition(before[i], commands[i], trace[i + 1])
    ensures forall j :: 0 <= j < i + 1 ==> TransitionAt(trace, commands, j, start)
    ensures trace[i + 1].policy == InForce(commands, i + 1, start)
  {
    PolicyAfter(before[i], commands[i], trace[i + 1]);
    forall j | 0 <= j < i + 1 ensures TransitionAt(trace, commands, j, start) {
      assert j < i ==> TransitionAt(before, commands, j, start);
      assert trace[j] == before[j] && (j < i ==> trace[j + 1] == before[j + 1]);
    }
  }

  /** `dispose`: the block list without the entry at `at`. */
  function Dispose(u: seq<Block>, at: nat): seq<Block>
    requires at < |u|
  {
    u[..at] + u[at + 1..]
  }

  lemma DisposeTiled(f: seq<Hole>, g: seq<Hole>, u: seq<Block>, at: nat, n: int)
    requires at < |u| && Tiled(f, u, n)
    requires forall a :: HolesAt(g, a) == HolesAt(f, a) + One(u[at].start, u[at].size, a)
    ensures Tiled(g, Dispose(u, at), n)
  {
    forall a ensures HolesAt(g, a) + BlocksAt(Dispose(u, at), a) == if 0 <= a < n then 1 else 0 {
      BlocksSplit(u, at, a);
      BlocksConcat(u[..at], u[at + 1..], a);
    }
  }

  lemma DisposeOrdered(u: seq<Block>, at: nat)
    requires at < |u| && BlocksOrdered(u)
    ensures BlocksOrdered(Dispose(u, at)) && forall i :: 0 <= i < |Dispose(u, at)| ==> Dispose(u, at)[i] in u
  {
  }

  lemma SamePids(u: seq<Block>, v: seq<Block>, b: Block, pid: int)
    requires multiset(v) == multiset(u) + multiset{b} && b.pid <= pid && forall i :: 0 <= i < |u| ==> u[i].pid <= pid
    ensures forall i :: 0 <= i < |v| ==> v[i].pid <= pid
  {
    forall i | 0 <= i < |v| ensures v[i].pid <= pid {
      assert v[i] in multiset(v);
      assert v[i] in u || v[i] == b;
    }
  }
}
