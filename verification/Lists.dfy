/** Lists of pages: what the queues and linked lists of the labs hold. */
module Lists {

  predicate Distinct(s: seq<int>) {
    forall i, j :: 0 <= i < j < |s| ==> s[i] != s[j]
  }

  function IndexOf(s: seq<int>, x: int): (a: nat)
    ensures a <= |s|
    ensures a < |s| ==> s[a] == x
    ensures a == |s| <==> x !in s
  {
    if s == [] then 0 else if s[0] == x then 0 else 1 + IndexOf(s[1..], x)
  }

  function Without(s: seq<int>, x: int): seq<int> {
    var a := IndexOf(s, x);
    if a < |s| then s[..a] + s[a + 1..] else s
  }

  function LastK(s: seq<int>, k: nat): seq<int> {
    if |s| <= k then s else s[|s| - k..]
  }

  ghost function Elems(ls: seq<int>): set<int> {
    set p | p in ls
  }

  lemma {:induction false} DistinctCard(ls: seq<int>)
    requires Distinct(ls)
    ensures |Elems(ls)| == |ls|
  {
    if ls != [] {
      var init := ls[..|ls| - 1];
      DistinctCard(init);
      assert Elems(ls) == Elems(init) + {ls[|ls| - 1]};
    }
  }

  lemma {:induction false} ElemsCard(ls: seq<int>)
    ensures |Elems(ls)| <= |ls|
  {
    if ls != [] {
      var init := ls[..|ls| - 1];
      ElemsCard(init);
      assert Elems(ls) == Elems(init) + {ls[|ls| - 1]};
    }
  }

  lemma WithoutAt(ls: seq<int>, x: int, b: int)
    requires Distinct(ls) && 0 <= b < |Without(ls, x)|
    ensures Without(ls, x)[b] != x
    ensures b < IndexOf(ls, x) ==> Without(ls, x)[b] == ls[b]
    ensures b >= IndexOf(ls, x) ==> b + 1 < |ls| && Without(ls, x)[b] == ls[b + 1]
  {
    var a := IndexOf(ls, x);
    if a < |ls| {
      assert b >= a ==> ls[a + 1..][b - a] == ls[b + 1];
      assert ls[a] == x;
    }
  }

  lemma WithoutDistinct(ls: seq<int>, x: int)
    requires Distinct(ls)
    ensures var w := Without(ls, x) + [x];
            Distinct(w) && |w| == |ls| + (if x in ls then 0 else 1)
  {
    var v := Without(ls, x);
    var w := v + [x];
    forall b, c | 0 <= b < c < |w| ensures w[b] != w[c] {
      WithoutAt(ls, x, b);
      if c < |v| {
        WithoutAt(ls, x, c);
      }
    }
  }

  lemma WithoutMembers(ls: seq<int>, x: int)
    ensures Elems(Without(ls, x) + [x]) == Elems(ls) + {x}
  {
    var a := IndexOf(ls, x);
    var w := Without(ls, x) + [x];
    forall p | p in ls ensures p in w {
      var b :| 0 <= b < |ls| && ls[b] == p;
      assert p == if b < a then w[b] else if b == a then w[|w| - 1] else w[b - 1];
    }
  }

  lemma ElemsWithout(ls: seq<int>, x: int)
    requires Distinct(ls)
    ensures Distinct(Without(ls, x)) && Elems(Without(ls, x)) == Elems(ls) - {x}
    ensures |Without(ls, x)| == |ls| - (if x in ls then 1 else 0)
  {
    var w := Without(ls, x);
    WithoutDistinct(ls, x);
    WithoutMembers(ls, x);
    assert (w + [x])[..|w|] == w && (w + [x])[|w|] == x;
    assert forall i :: 0 <= i < |w| ==> w[i] == (w + [x])[i];
    ElemsConcat(w, [x]);
    assert x !in w;
    assert Elems([x]) == {x};
  }

  /** Unlink the node the index points at. */
  method Erase(ls: seq<int>, x: int) returns (out: seq<int>)
    requires x in ls
    ensures out == Without(ls, x)
  {
    var a := 0;
    while ls[a] != x
      invariant 0 <= a < |ls| && x !in ls[..a]
      invariant x in ls[a..]
      decreases |ls| - a
    {
      a := a + 1;
    }
    IndexIs(ls, x, a);
    out := ls[..a] + ls[a + 1..];
  }

  lemma {:induction false} IndexIs(ls: seq<int>, x: int, a: nat)
    requires a < |ls| && ls[a] == x && x !in ls[..a]
    ensures IndexOf(ls, x) == a
  {
    if a > 0 {
      assert ls[0] == ls[..a][0];
      assert ls[1..][..a - 1] == ls[..a][1..];
      IndexIs(ls[1..], x, a - 1);
    }
  }

  /** A list without repetitions is one with as many elements as positions. */
  lemma {:induction false} CardDistinct(ls: seq<int>)
    requires |Elems(ls)| == |ls|
    ensures Distinct(ls)
  {
    if ls != [] {
      var init, x := ls[..|ls| - 1], ls[|ls| - 1];
      assert Elems(ls) == Elems(init) + {x};
      ElemsCard(init);
      assert x !in init;
      CardDistinct(init);
    }
  }

  lemma ElemsConcat(a: seq<int>, b: seq<int>)
    ensures Elems(a + b) == Elems(a) + Elems(b)
  {
  }

  /** Rearranging keeps a list free of repetitions. */
  lemma DistinctRearranged(p: seq<int>, q: seq<int>)
    requires Distinct(p) && Elems(q) == Elems(p) && |q| == |p|
    ensures Distinct(q)
  {
    DistinctCard(p);
    CardDistinct(q);
  }
}
