/** The two-segment cache of lab9/main.cpp (`second_chance`): a FIFO segment of k / 2 pages whose
    overflow spills into an LRU segment of k - k / 2 pages. The program works by cases; the
    specification is a single pipeline. */
module SecondChancePaging {
  import opened Lists
  import FifoPaging
  import LruPaging
  import opened Paging

  datatype Segments = Segments(fifo: seq<int>, lru: seq<int>)

  // ----- specification -----

  /** Push `x` into the FIFO segment; what overflows it spills to the LRU segment, and what
      overflows that is dropped. A page of the FIFO segment stays where it is. */
  function Step(s: Segments, x: int, k: nat): Segments {
    if x in s.fifo then s
    else
      var fifo := s.fifo + [x];
      var lru := Without(s.lru, x);
      if |fifo| <= k / 2 then Segments(fifo, lru)
      else Segments(fifo[1..], LastK(lru + [fifo[0]], k - k / 2))
  }

  /** Both segments are duplicate-free and disjoint, neither is over-full, and the LRU segment
      is used only once the FIFO segment is full. */
  ghost predicate Valid(s: Segments, k: nat) {
    && Distinct(s.fifo) && Distinct(s.lru) && Elems(s.fifo) !! Elems(s.lru)
    && |s.fifo| <= k / 2 && |s.lru| <= k - k / 2
    && (s.lru != [] ==> |s.fifo| == k / 2)
  }

  ghost function Resident(s: Segments): set<int> {
    Elems(s.fifo) + Elems(s.lru)
  }

  /** The pages of `s` without its first, and of `s` with one more. */
  lemma ElemsEdits(s: seq<int>, x: int)
    ensures Elems(s + [x]) == Elems(s) + {x}
    ensures s != [] && Distinct(s) ==> Elems(s[1..]) == Elems(s) - {s[0]} && Distinct(s[1..])
    ensures Distinct(s) && x !in s ==> Distinct(s + [x])
    ensures Elems(Without(s, x)) <= Elems(s)
  {
    if s != [] {
      assert s == [s[0]] + s[1..];
    }
  }

  /** The three shapes a step can take. */
  lemma StepCases(s: Segments, x: int, k: nat)
    requires k >= 2 && Valid(s, k) && x !in s.fifo
    ensures var t := Step(s, x, k);
            && (|s.fifo| < k / 2 ==> t == Segments(s.fifo + [x], []))
            && (|s.fifo| == k / 2 ==>
                  && t.fifo == s.fifo[1..] + [x]
                  && t.lru == (if x !in s.lru && |s.lru| == k - k / 2 then s.lru[1..] else Without(s.lru, x))
                              + [s.fifo[0]])
  {
    ElemsWithout(s.lru, x);
    if |s.fifo| == k / 2 {
      assert (s.fifo + [x])[1..] == s.fifo[1..] + [x];
      var lru := Without(s.lru, x) + [s.fifo[0]];
      if x !in s.lru && |s.lru| == k - k / 2 {
        assert LastK(lru, k - k / 2) == s.lru[1..] + [s.fifo[0]];
      }
    }
  }

  lemma StepFifo(s: Segments, x: int, k: nat)
    requires k >= 2 && Valid(s, k) && x !in s.fifo && |s.fifo| == k / 2
    ensures var fifo := Step(s, x, k).fifo;
            Elems(fifo) == Elems(s.fifo) - {s.fifo[0]} + {x} && Distinct(fifo) && |fifo| == k / 2
  {
    StepCases(s, x, k);
    ElemsEdits(s.fifo, x);
    ElemsEdits(s.fifo[1..], x);
    assert x !in s.fifo[1..];
  }

  /** What stays of the LRU segment when a page arrives from the full FIFO segment. */
  ghost function Kept(s: Segments, x: int, k: nat): set<int> {
    if x !in s.lru && |s.lru| == k - k / 2 && s.lru != [] then Elems(s.lru) - {s.lru[0]} else Elems(s.lru) - {x}
  }

  lemma StepLru(s: Segments, x: int, k: nat)
    requires k >= 2 && Valid(s, k) && x !in s.fifo && |s.fifo| == k / 2
    ensures var lru := Step(s, x, k).lru;
            Elems(lru) == Kept(s, x, k) + {s.fifo[0]} && Distinct(lru) && 1 <= |lru| <= k - k / 2
  {
    StepCases(s, x, k);
    var f := s.fifo[0];
    assert f in Elems(s.fifo);
    if x !in s.lru && |s.lru| == k - k / 2 {
      ElemsEdits(s.lru, f);
      ElemsEdits(s.lru[1..], f);
      assert f !in s.lru[1..];
    } else {
      ElemsWithout(s.lru, x);
      ElemsEdits(Without(s.lru, x), f);
      assert f !in Elems(Without(s.lru, x));
    }
  }

  lemma StepValid(s: Segments, x: int, k: nat)
    requires k >= 2 && Valid(s, k)
    ensures Valid(Step(s, x, k), k)
  {
    if x !in s.fifo {
      StepCases(s, x, k);
      if |s.fifo| == k / 2 {
        StepFifo(s, x, k);
        StepLru(s, x, k);
      } else {
        ElemsEdits(s.fifo, x);
      }
    }
  }

  ghost function StateAt(order: seq<int>, k: nat, n: nat): (s: Segments)
    requires k >= 2 && n <= |order|
    ensures Valid(s, k)
  {
    if n == 0 then Segments([], [])
    else
      var s := StateAt(order, k, n - 1);
      StepValid(s, order[n - 1], k);
      Step(s, order[n - 1], k)
  }

  ghost function SegmentHits(order: seq<int>, k: nat, n: nat): nat
    requires k >= 2 && n <= |order|
  {
    if n == 0 then 0
    else SegmentHits(order, k, n - 1) + if order[n - 1] in Resident(StateAt(order, k, n - 1)) then 1 else 0
  }

  // ----- the cache as a demand-paging schedule -----

  lemma ResidentCard(s: Segments, k: nat)
    requires Valid(s, k)
    ensures |Resident(s)| <= k
  {
    DistinctCard(s.fifo);
    DistinctCard(s.lru);
  }

  lemma StepResident(s: Segments, x: int, k: nat)
    requires k >= 2 && Valid(s, k)
    ensures x in Resident(Step(s, x, k)) && Resident(Step(s, x, k)) <= Resident(s) + {x}
    ensures x in Resident(s) ==> Resident(Step(s, x, k)) == Resident(s)
  {
    if x !in s.fifo {
      StepCases(s, x, k);
      if |s.fifo| == k / 2 {
        StepFifo(s, x, k);
        StepLru(s, x, k);
        assert s.fifo[0] in Elems(s.fifo);
      } else {
        ElemsEdits(s.fifo, x);
      }
    }
  }

  lemma StepIsDemand(s: Segments, x: int, k: nat)
    requires k >= 2 && Valid(s, k)
    ensures DemandStep(Resident(s), x, k, Resident(Step(s, x, k)))
  {
    StepResident(s, x, k);
    StepValid(s, x, k);
    ResidentCard(Step(s, x, k), k);
  }

  lemma SegmentRun(order: seq<int>, k: nat) returns (run: seq<set<int>>)
    requires k >= 2
    ensures |run| == |order| + 1 && forall i :: 0 <= i <= |order| ==> run[i] == Resident(StateAt(order, k, i))
  {
    run := seq(|order| + 1, n requires 0 <= n <= |order| => Resident(StateAt(order, k, n)));
  }

  /** The segmented cache is a demand-paging schedule with `k` frames, so MIN is never worse. */
  lemma SecondChanceIsAchievable(order: seq<int>, k: nat)
    requires k >= 2
    ensures Achievable(order, k, SegmentHits(order, k, |order|))
  {
    var run := SegmentRun(order, k);
    forall i | 0 <= i < |order| ensures DemandAt(order, k, run, i) {
      StepIsDemand(StateAt(order, k, i), order[i], k);
    }
    SegmentRunHits(order, k, run);
  }

  lemma SegmentRunHits(order: seq<int>, k: nat, run: seq<set<int>>)
    requires k >= 2
    requires |run| == |order| + 1 && forall i :: 0 <= i <= |order| ==> run[i] == Resident(StateAt(order, k, i))
    ensures Hits(order, run, |order|) == SegmentHits(order, k, |order|)
  {
    var score := SegmentScore(order, k);
    forall i | 0 <= i < |order| ensures score[i + 1] == score[i] + if order[i] in run[i] then 1 else 0 {
      StateNext(order, k, i);
    }
    HitsAreScore(order, run, score, |order|);
  }

  lemma SegmentScore(order: seq<int>, k: nat) returns (score: seq<nat>)
    requires k >= 2
    ensures |score| == |order| + 1 && forall i :: 0 <= i <= |order| ==> score[i] == SegmentHits(order, k, i)
  {
    score := seq(|order| + 1, n requires 0 <= n <= |order| => SegmentHits(order, k, n));
  }

  lemma StateNext(order: seq<int>, k: nat, i: nat)
    requires k >= 2 && i < |order|
    ensures Valid(StateAt(order, k, i), k)
    ensures StateAt(order, k, i + 1) == Step(StateAt(order, k, i), order[i], k)
    ensures SegmentHits(order, k, i + 1)
            == SegmentHits(order, k, i) + if order[i] in Resident(StateAt(order, k, i)) then 1 else 0
  {
  }

  // ----- one queue -----

  /** The queue: next to leave first. */
  function Queue(s: Segments): seq<int> {
    s.lru + s.fifo
  }

  lemma QueueDistinct(s: Segments, k: nat)
    requires Valid(s, k)
    ensures Distinct(Queue(s)) && Elems(Queue(s)) == Resident(s)
  {
    var q := Queue(s);
    ElemsConcat(s.lru, s.fifo);
    forall i, j | 0 <= i < j < |q| ensures q[i] != q[j] {
      if i < |s.lru| <= j {
        assert q[i] in Elems(s.lru) && q[j] in Elems(s.fifo);
      }
    }
  }

  /** How the queue changes with a request. */
  lemma QueueStep(s: Segments, x: int, k: nat)
    requires k >= 2 && Valid(s, k) && x !in s.fifo
    ensures var q, q' := Queue(s), Queue(Step(s, x, k));
            && (x in s.lru ==> q' == Without(q, x) + [x])
            && (x !in q && |q| < k ==> q' == q + [x])
            && (x !in q && |q| == k ==> q' == q[1..] + [x])
            && |q| <= k
  {
    StepCases(s, x, k);
    var q, t := Queue(s), Step(s, x, k);
    if |s.fifo| == k / 2 {
      var a := if x !in s.lru && |s.lru| == k - k / 2 then s.lru[1..] else Without(s.lru, x);
      Regrouped(a, s.fifo, x, Queue(t));
      if x in s.lru {
        WithoutFront(s.lru, s.fifo, x);
      }
    }
  }

  lemma Regrouped(a: seq<int>, fifo: seq<int>, x: int, q: seq<int>)
    requires fifo != [] && q == (a + [fifo[0]]) + (fifo[1..] + [x])
    ensures q == a + fifo + [x]
  {
  }

  lemma WithoutFront(a: seq<int>, b: seq<int>, x: int)
    requires x in a
    ensures Without(a + b, x) == Without(a, x) + b
  {
    var i, c := IndexOf(a, x), a + b;
    FirstAt(a, x);
    CutOut(a, b, i);
    WithoutFirst(a, x, i);
    WithoutFirst(c, x, i);
  }

  lemma WithoutFirst(s: seq<int>, x: int, i: nat)
    requires i < |s| && s[i] == x && x !in s[..i]
    ensures Without(s, x) == s[..i] + s[i + 1..]
  {
    IndexIs(s, x, i);
  }

  lemma CutOut(a: seq<int>, b: seq<int>, i: nat)
    requires i < |a|
    ensures (a + b)[..i] == a[..i] && (a + b)[..i] + (a + b)[i + 1..] == (a[..i] + a[i + 1..]) + b
  {
  }

  lemma {:induction false} FirstAt(a: seq<int>, x: int)
    requires x in a
    ensures IndexOf(a, x) < |a| && x !in a[..IndexOf(a, x)]
  {
    if a[0] != x {
      FirstAt(a[1..], x);
      assert a[..IndexOf(a, x)] == [a[0]] + a[1..][..IndexOf(a[1..], x)];
    }
  }

  /** What the cache means: the FIFO part is FIFO with k / 2 frames, and both parts together are LRU
      over the pages that FIFO faults on. */
  ghost predicate Layered(order: seq<int>, k: nat, n: nat, s: Segments)
    requires k >= 2 && n <= |order|
  {
    var faults := FifoPaging.Faults(order, k / 2, n);
    s.fifo == LastK(faults, k / 2) && Queue(s) == LruPaging.LruList(faults, k, |faults|)
  }

  /** LRU looks only at the pages served. */
  lemma {:induction false} LruPrefix(f: seq<int>, g: seq<int>, k: nat, m: nat)
    requires m <= |f| <= |g| && forall i :: 0 <= i < |f| ==> g[i] == f[i]
    ensures LruPaging.LruList(g, k, m) == LruPaging.LruList(f, k, m)
  {
    if m > 0 {
      var i: nat := m - 1;
      LruPrefix(f, g, k, i);
      LruPaging.LruUnfold(f, k, i, m);
      LruPaging.LruUnfold(g, k, i, m);
    }
  }

  lemma LruOneMore(f: seq<int>, x: int, k: nat)
    ensures LruPaging.LruList(f + [x], k, |f| + 1) == LruPaging.LruStep(LruPaging.LruList(f, k, |f|), x, k)
  {
    var g := f + [x];
    LruPrefix(f, g, k, |f|);
    LruPaging.LruUnfold(g, k, |f|, |f| + 1);
  }

  /** The queue takes an LRU step for a page outside the FIFO part. */
  lemma QueueIsLru(s: Segments, x: int, k: nat)
    requires k >= 2 && Valid(s, k) && x !in s.fifo
    ensures Queue(Step(s, x, k)) == LruPaging.LruStep(Queue(s), x, k)
  {
    var q := Queue(s);
    QueueDistinct(s, k);
    QueueStep(s, x, k);
    ElemsWithout(q, x);
    if x in s.lru {
      assert x in q;
    } else {
      assert x !in q && Without(q, x) == q;
      assert |q| == k ==> LastK(q + [x], k) == q[1..] + [x];
    }
  }

  lemma FifoIsPush(s: Segments, f: seq<int>, x: int, k: nat)
    requires k >= 2 && Valid(s, k) && x !in s.fifo && s.fifo == LastK(f, k / 2)
    ensures Step(s, x, k).fifo == LastK(f + [x], k / 2)
  {
    StepCases(s, x, k);
    FifoPaging.LastKPush(f, x, k / 2);
    if |s.fifo| == k / 2 {
      assert LastK(s.fifo + [x], k / 2) == s.fifo[1..] + [x];
    }
  }

  lemma LayeredStep(s: Segments, t: Segments, f: seq<int>, g: seq<int>, x: int, k: nat)
    requires k >= 2 && Valid(s, k) && t == Step(s, x, k) && g == FifoPaging.Push(f, x, k / 2)
    requires s.fifo == LastK(f, k / 2) && Queue(s) == LruPaging.LruList(f, k, |f|)
    ensures t.fifo == LastK(g, k / 2) && Queue(t) == LruPaging.LruList(g, k, |g|)
  {
    if x !in s.fifo {
      FifoIsPush(s, f, x, k);
      QueueIsLru(s, x, k);
      LruOneMore(f, x, k);
    }
  }

  lemma LayeredNext(order: seq<int>, k: nat, m: nat, n: nat, s: Segments, t: Segments)
    requires k >= 2 && m < |order| && n == m + 1 && Layered(order, k, m, s) && Valid(s, k) && t == Step(s, order[m], k)
    ensures Layered(order, k, n, t)
  {
    FifoPaging.FaultsNext(order, k / 2, m);
    LayeredStep(s, t, FifoPaging.Faults(order, k / 2, m), FifoPaging.Faults(order, k / 2, n), order[m], k);
  }

  lemma {:induction false} StateIsLayered(order: seq<int>, k: nat, n: nat)
    requires k >= 2 && n <= |order|
    ensures Layered(order, k, n, StateAt(order, k, n))
  {
    if n > 0 {
      var m: nat := n - 1;
      StateIsLayered(order, k, m);
      StateNext(order, k, m);
      LayeredNext(order, k, m, n, StateAt(order, k, m), StateAt(order, k, n));
    }
  }

  /** Requests among the first `n` for one of the `k` distinct pages on which FIFO with k / 2 frames
      faulted last. */
  ghost function LayeredHits(order: seq<int>, k: nat, n: nat): nat
    requires k >= 2 && n <= |order|
  {
    if n == 0 then 0
    else
      var faults := FifoPaging.Faults(order, k / 2, n - 1);
      LayeredHits(order, k, n - 1) + if LruPaging.Recent(faults, |faults|, k, order[n - 1]) then 1 else 0
  }

  lemma {:induction false} HitsAreLayered(order: seq<int>, k: nat, n: nat)
    requires k >= 2 && n <= |order|
    ensures SegmentHits(order, k, n) == LayeredHits(order, k, n)
  {
    if n > 0 {
      var m: nat := n - 1;
      var faults := FifoPaging.Faults(order, k / 2, m);
      HitsAreLayered(order, k, m);
      StateNext(order, k, m);
      StateIsLayered(order, k, m);
      QueueDistinct(StateAt(order, k, m), k);
      LruPaging.LruListIsRecent(faults, k, |faults|);
    }
  }

  // ----- the program -----

  /** The body of the loop of `second_chance`, case by case, with the two index sets. */
  method Serve(que: seq<int>, inQue: set<int>, ls: seq<int>, inLs: set<int>, x: int, k: nat)
      returns (que': seq<int>, inQue': set<int>, ls': seq<int>, inLs': set<int>, isHit: bool)
    requires k >= 2 && Valid(Segments(que, ls), k) && inQue == Elems(que) && inLs == Elems(ls)
    ensures Segments(que', ls') == Step(Segments(que, ls), x, k)
    ensures inQue' == Elems(que') && inLs' == Elems(ls')
    ensures isHit <==> x in inQue || x in inLs
  {
    ghost var s := Segments(que, ls);
    que', inQue', ls', inLs' := que, inQue, ls, inLs;
    isHit := x in inQue || x in inLs;
    if x !in inQue {
      StepCases(s, x, k);
    }
    if isHit {
      if x in inLs {
        StepFifo(s, x, k);
        StepLru(s, x, k);
        ls' := Erase(ls', x);
        inLs' := inLs' - {x};
        var f := que'[0];
        que', inQue' := que'[1..], inQue' - {f};
        ls', inLs' := ls' + [f], inLs' + {f};
        que', inQue' := que' + [x], inQue' + {x};
      }
    } else {
      if |que| < k / 2 {
        ElemsEdits(que, x);
        que', inQue' := que' + [x], inQue' + {x};
      } else if |que| == k / 2 && |ls| < k - k / 2 {
        StepFifo(s, x, k);
        StepLru(s, x, k);
        var f := que'[0];
        que', inQue' := que'[1..], inQue' - {f};
        que', inQue' := que' + [x], inQue' + {x};
        ls', inLs' := ls' + [f], inLs' + {f};
      } else if |que| == k / 2 && |ls| == k - k / 2 {
        StepFifo(s, x, k);
        StepLru(s, x, k);
        var ind := ls'[0];
        ls', inLs' := ls'[1..], inLs' - {ind};
        var f := que'[0];
        que', inQue' := que'[1..], inQue' - {f};
        que', inQue' := que' + [x], inQue' + {x};
        ls', inLs' := ls' + [f], inLs' + {f};
      }
    }
  }

  /** `second_chance`: the case analysis never falls through, and the hits are the requests for one of
      the `k` distinct pages on which FIFO with k / 2 frames faulted last. */
  method SecondChance(order: seq<int>, k: nat) returns (hit: nat)
    requires k >= 2
    ensures hit == LayeredHits(order, k, |order|) == SegmentHits(order, k, |order|)
  {
    hit := 0;
    var que: seq<int>, inQue: set<int> := [], {};
    var ls: seq<int>, inLs: set<int> := [], {};
    ghost var s := Segments([], []);
    for i := 0 to |order|
      invariant s == StateAt(order, k, i) && s == Segments(que, ls) && inQue == Elems(que) && inLs == Elems(ls)
      invariant hit == SegmentHits(order, k, i)
    {
      StateNext(order, k, i);
      s := Step(s, order[i], k);
      var isHit;
      que, inQue, ls, inLs, isHit := Serve(que, inQue, ls, inLs, order[i], k);
      if isHit {
        hit := hit + 1;
      }
    }
    HitsAreLayered(order, k, |order|);
  }
}
