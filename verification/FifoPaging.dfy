/** FIFO in its two implementations: lab9/main.cpp pops before pushing, lab8/replacement.cpp
    pushes before popping. Both keep resident exactly the last `k` pages that faulted. */
module FifoPaging {
  import opened Lists
  import opened Paging

  /** Serve `x` when the last `k` faulted pages are resident: on a miss it joins the faults. */
  function Push(f: seq<int>, x: int, k: nat): seq<int> {
    if x in LastK(f, k) then f else f + [x]
  }

  /** The requests among the first `n` that fault. */
  function Faults(order: seq<int>, k: nat, n: nat): (f: seq<int>)
    requires n <= |order|
    ensures |f| <= n
  {
    if n == 0 then [] else Push(Faults(order, k, n - 1), order[n - 1], k)
  }

  lemma LastKPush(f: seq<int>, x: int, k: nat)
    ensures LastK(f + [x], k) == LastK(LastK(f, k) + [x], k)
  {
  }

  /** No page faults twice within `k` faults, so none is resident twice. */
  ghost predicate NoTwice(f: seq<int>, k: nat) {
    forall i, j :: 0 <= i < j < |f| && j < i + k ==> f[i] != f[j]
  }

  lemma NotRecent(f: seq<int>, k: nat, x: int, i: nat)
    requires x !in LastK(f, k) && i < |f| <= i + k
    ensures f[i] != x
  {
    var last := LastK(f, k);
    assert last[|last| - |f| + i] == f[i];
  }

  lemma PushKeeps(f: seq<int>, x: int, k: nat)
    requires NoTwice(f, k)
    ensures NoTwice(Push(f, x, k), k)
  {
    if x !in LastK(f, k) {
      forall i | 0 <= i < |f| && |f| < i + k ensures f[i] != x {
        NotRecent(f, k, x, i);
      }
    }
  }

  lemma LastKDistinct(f: seq<int>, k: nat)
    requires NoTwice(f, k)
    ensures Distinct(LastK(f, k))
  {
  }

  lemma FaultsNext(order: seq<int>, k: nat, i: nat)
    requires i < |order|
    ensures Faults(order, k, i + 1) == Push(Faults(order, k, i), order[i], k)
  {
  }

  /** The body of the loop of `fifo`: pop the front when full, then push. */
  method Serve(que: seq<int>, resident: set<int>, x: int, k: nat, ghost f: seq<int>)
      returns (que': seq<int>, resident': set<int>, isHit: bool)
    requires k >= 1 && que == LastK(f, k) && NoTwice(f, k) && resident == Elems(que)
    ensures que' == LastK(Push(f, x, k), k) && NoTwice(Push(f, x, k), k) && resident' == Elems(que')
    ensures (isHit <==> x in que) && |Push(f, x, k)| == |f| + if isHit then 0 else 1
  {
    PushKeeps(f, x, k);
    que', resident', isHit := que, resident, x in resident;
    if x !in resident {
      LastKPush(f, x, k);
      LastKDistinct(f, k);
      QueueStep(que, x, k);
      if |que| == k {
        resident' := resident' - {que'[0]};
        que' := que'[1..];
      }
      que' := que' + [x];
      resident' := resident' + {x};
    }
  }

  /** Pop when full, then push. */
  lemma QueueStep(que: seq<int>, x: int, k: nat)
    requires k >= 1 && Distinct(que) && |que| <= k
    ensures LastK(que + [x], k) == (if |que| == k then que[1..] else que) + [x]
    ensures Elems(LastK(que + [x], k)) == (if |que| == k then Elems(que) - {que[0]} else Elems(que)) + {x}
  {
    var rest := if |que| == k then que[1..] else que;
    ElemsConcat(rest, [x]);
    assert Elems([x]) == {x};
    if |que| == k {
      assert (que + [x])[1..] == que[1..] + [x];
      Headless(que);
    }
  }

  lemma Headless(que: seq<int>)
    requires que != [] && Distinct(que)
    ensures Elems(que[1..]) == Elems(que) - {que[0]}
  {
    assert que == [que[0]] + que[1..];
    ElemsConcat([que[0]], que[1..]);
  }

  // ----- first in, first out, by age -----

  /** One more than the position of the last request among the first `n` that brought `p` in. */
  ghost function Loaded(order: seq<int>, run: seq<set<int>>, n: nat, p: int): (t: nat)
    requires n <= |order| && n <= |run|
    ensures t <= n
  {
    if n == 0 then 0
    else if order[n - 1] == p && p !in run[n - 1] then n
    else Loaded(order, run, n - 1, p)
  }

  lemma LoadedNext(order: seq<int>, run: seq<set<int>>, n: nat, next: nat, p: int)
    requires n < |order| && next == n + 1 <= |run|
    ensures Loaded(order, run, next, p)
            == if order[n] == p && p !in run[n] then next else Loaded(order, run, n, p)
  {
  }

  /** A hit changes nothing; a miss with all frames taken drops the page that came in first. */
  ghost predicate AgeStep(order: seq<int>, k: nat, run: seq<set<int>>, n: nat)
    requires n < |order| && n + 1 < |run|
  {
    var c, x := run[n], order[n];
    if x in c then run[n + 1] == c
    else if |c| < k then run[n + 1] == c + {x}
    else exists v :: v in c && Oldest(order, run, n, v) && run[n + 1] == c - {v} + {x}
  }

  ghost predicate Oldest(order: seq<int>, run: seq<set<int>>, n: nat, v: int)
    requires n <= |order| && n < |run|
  {
    forall q :: q in run[n] && q != v ==> Loaded(order, run, n, v) < Loaded(order, run, n, q)
  }

  ghost predicate AgeRun(order: seq<int>, k: nat, run: seq<set<int>>) {
    |run| == |order| + 1 && run[0] == {} && forall n :: 0 <= n < |order| ==> AgeStep(order, k, run, n)
  }

  /** The hits of the schedule that always drops the page that came in first. */
  ghost predicate ByAge(order: seq<int>, k: nat, hit: nat) {
    exists run :: AgeRun(order, k, run) && Hits(order, run, |order|) == hit
  }

  /** In the queue pages stand by age. */
  ghost predicate AgeOrdered(order: seq<int>, run: seq<set<int>>, n: nat, que: seq<int>)
    requires n <= |order| && n < |run|
  {
    forall i, j :: 0 <= i < j < |que| ==> Loaded(order, run, n, que[i]) < Loaded(order, run, n, que[j])
  }

  lemma AgeHit(order: seq<int>, run: seq<set<int>>, n: nat, next: nat, que: seq<int>)
    requires n < |order| && next == n + 1 < |run| && AgeOrdered(order, run, n, que) && order[n] in run[n]
    ensures AgeOrdered(order, run, next, que)
  {
    forall i | 0 <= i < |que| ensures Loaded(order, run, next, que[i]) == Loaded(order, run, n, que[i]) {
      LoadedNext(order, run, n, next, que[i]);
    }
  }

  lemma AgeMiss(order: seq<int>, run: seq<set<int>>, n: nat, next: nat, rest: seq<int>)
    requires n < |order| && next == n + 1 < |run| && AgeOrdered(order, run, n, rest)
    requires order[n] !in run[n] && order[n] !in rest
    ensures AgeOrdered(order, run, next, rest + [order[n]])
  {
    var que := rest + [order[n]];
    forall i | 0 <= i < |que|
      ensures Loaded(order, run, next, que[i]) == if i < |rest| then Loaded(order, run, n, rest[i]) else next
    {
      LoadedNext(order, run, n, next, que[i]);
    }
  }

  /** What the queue does is an age step. */
  lemma QueueIsAge(order: seq<int>, k: nat, run: seq<set<int>>, n: nat, next: nat, f: seq<int>)
    requires k >= 1 && n < |order| && next == n + 1 < |run| && NoTwice(f, k)
    requires run[n] == Elems(LastK(f, k)) && run[next] == Elems(LastK(Push(f, order[n], k), k))
    requires AgeOrdered(order, run, n, LastK(f, k))
    ensures AgeStep(order, k, run, n) && AgeOrdered(order, run, next, LastK(Push(f, order[n], k), k))
  {
    var que, x := LastK(f, k), order[n];
    LastKDistinct(f, k);
    DistinctCard(que);
    if x in que {
      AgeHit(order, run, n, next, que);
    } else {
      var rest := if |que| == k then que[1..] else que;
      LastKPush(f, x, k);
      QueueStep(que, x, k);
      AgeMiss(order, run, n, next, rest);
      if |que| == k {
        FrontIsOldest(order, run, n, que);
      }
    }
  }

  lemma FrontIsOldest(order: seq<int>, run: seq<set<int>>, n: nat, que: seq<int>)
    requires n <= |order| && n < |run| && que != [] && AgeOrdered(order, run, n, que) && run[n] == Elems(que)
    ensures que[0] in run[n] && Oldest(order, run, n, que[0])
  {
    forall q | q in run[n] && q != que[0] ensures Loaded(order, run, n, que[0]) < Loaded(order, run, n, q) {
      var j :| 0 <= j < |que| && que[j] == q;
    }
  }

  lemma {:induction false} FaultsByAge(order: seq<int>, k: nat, run: seq<set<int>>, n: nat, f: seq<int>)
    requires k >= 1 && n <= |order| && |run| == |order| + 1 && f == Faults(order, k, n)
    requires forall i: nat {:trigger run[i]} :: i <= |order| ==> run[i] == Resident(order, k, i)
    ensures NoTwice(f, k) && AgeOrdered(order, run, n, LastK(f, k))
  {
    if n > 0 {
      var m: nat, e := n - 1, Faults(order, k, n - 1);
      FaultsByAge(order, k, run, m, e);
      FaultIsAge(order, k, run, m, n, e, f);
    }
  }

  lemma FaultIsAge(order: seq<int>, k: nat, run: seq<set<int>>, n: nat, next: nat, f: seq<int>, g: seq<int>)
    requires k >= 1 && n < |order| && next == n + 1 < |run| && NoTwice(f, k)
    requires f == Faults(order, k, n) && g == Faults(order, k, next)
    requires run[n] == Resident(order, k, n) && run[next] == Resident(order, k, next)
    requires AgeOrdered(order, run, n, LastK(f, k))
    ensures AgeStep(order, k, run, n) && NoTwice(g, k) && AgeOrdered(order, run, next, LastK(g, k))
  {
    FaultsNext(order, k, n);
    PushKeeps(f, order[n], k);
    QueueIsAge(order, k, run, n, next, f);
  }

  lemma QueueAgeStep(order: seq<int>, k: nat, run: seq<set<int>>, n: nat)
    requires k >= 1 && n < |order| && |run| == |order| + 1
    requires forall i: nat {:trigger run[i]} :: i <= |order| ==> run[i] == Resident(order, k, i)
    ensures AgeStep(order, k, run, n)
  {
    var f, g := Faults(order, k, n), Faults(order, k, n + 1);
    FaultsByAge(order, k, run, n, f);
    FaultIsAge(order, k, run, n, n + 1, f, g);
  }

  lemma QueueAgeRun(order: seq<int>, k: nat, run: seq<set<int>>)
    requires k >= 1 && |run| == |order| + 1 && run[0] == {}
    requires forall i: nat {:trigger run[i]} :: i <= |order| ==> run[i] == Resident(order, k, i)
    ensures AgeRun(order, k, run)
  {
    forall n | 0 <= n < |order| ensures AgeStep(order, k, run, n) {
      QueueAgeStep(order, k, run, n);
    }
  }

  /** FIFO's hits are those of the schedule that drops the page that came in first. */
  lemma FifoIsByAge(order: seq<int>, k: nat)
    requires k >= 1
    ensures ByAge(order, k, |order| - |Faults(order, k, |order|)|)
  {
    var run := FifoRun(order, k);
    QueueAgeRun(order, k, run);
    FifoRunHits(order, k, run);
  }

  /** There is only one such schedule. */
  lemma {:induction false} AgeUnique(order: seq<int>, k: nat, a: seq<set<int>>, b: seq<set<int>>, n: nat)
    requires AgeRun(order, k, a) && AgeRun(order, k, b) && n <= |order|
    ensures forall i :: 0 <= i <= n ==> a[i] == b[i]
  {
    if n > 0 {
      var m: nat := n - 1;
      AgeUnique(order, k, a, b, m);
      assert AgeStep(order, k, a, m) && AgeStep(order, k, b, m);
      forall p ensures Loaded(order, a, m, p) == Loaded(order, b, m, p) {
        SameAges(order, a, b, m, p);
      }
    }
  }

  lemma {:induction false} SameAges(order: seq<int>, a: seq<set<int>>, b: seq<set<int>>, n: nat, p: int)
    requires n <= |order| && n <= |a| && n <= |b| && forall i :: 0 <= i < n ==> a[i] == b[i]
    ensures Loaded(order, a, n, p) == Loaded(order, b, n, p)
  {
    if n > 0 {
      SameAges(order, a, b, n - 1, p);
    }
  }

  /** `fifo` of lab9. */
  method Fifo(order: seq<int>, k: nat) returns (hit: nat)
    requires k >= 1
    ensures hit == |order| - |Faults(order, k, |order|)| && ByAge(order, k, hit)
  {
    FifoIsByAge(order, k);
    hit := 0;
    var que: seq<int> := [];
    var resident: set<int> := {};
    ghost var f := [];
    for i := 0 to |order|
      invariant f == Faults(order, k, i) && que == LastK(f, k) && NoTwice(f, k) && resident == Elems(que)
      invariant hit == i - |f|
    {
      FaultsNext(order, k, i);
      var isHit;
      que, resident, isHit := Serve(que, resident, order[i], k, f);
      f := Push(f, order[i], k);
      if isHit {
        hit := hit + 1;
      }
    }
  }

  /** The FIFO branch of lab8: push, then pop the front when over-full. */
  method FifoByList(order: seq<int>, k: nat) returns (hit: nat)
    ensures hit == |order| - |Faults(order, k, |order|)|
  {
    hit := 0;
    var cache: seq<int> := [];
    ghost var f := [];
    for i := 0 to |order|
      invariant f == Faults(order, k, i) && cache == LastK(f, k)
      invariant hit == i - |f|
    {
      FaultsNext(order, k, i);
      if order[i] in cache {
        hit := hit + 1;
      } else {
        LastKPush(f, order[i], k);
        cache := cache + [order[i]];
        if |cache| > k {
          cache := cache[1..];
        }
      }
      f := Push(f, order[i], k);
    }
  }

  ghost function Resident(order: seq<int>, k: nat, n: nat): set<int>
    requires n <= |order|
  {
    Elems(LastK(Faults(order, k, n), k))
  }

  lemma FifoStep(order: seq<int>, k: nat, i: nat)
    requires k >= 1 && i < |order|
    ensures DemandStep(Resident(order, k, i), order[i], k, Resident(order, k, i + 1))
  {
    var f, x := Faults(order, k, i), order[i];
    var q, r := LastK(f, k), LastK(Push(f, x, k), k);
    ElemsCard(r);
    if x !in q {
      LastKPush(f, x, k);
      assert r[|r| - 1] == x;
      assert forall p :: p in r ==> p in q + [x];
    }
  }

  lemma FifoRun(order: seq<int>, k: nat) returns (run: seq<set<int>>)
    ensures |run| == |order| + 1 && forall i :: 0 <= i <= |order| ==> run[i] == Resident(order, k, i)
  {
    run := seq(|order| + 1, n requires 0 <= n <= |order| => Resident(order, k, n));
  }

  /** FIFO is a demand-paging schedule, so MIN is never worse. */
  lemma FifoIsAchievable(order: seq<int>, k: nat)
    requires k >= 1
    ensures Achievable(order, k, |order| - |Faults(order, k, |order|)|)
  {
    var run := FifoRun(order, k);
    forall i | 0 <= i < |order| ensures DemandAt(order, k, run, i) {
      FifoStep(order, k, i);
    }
    FifoRunHits(order, k, run);
  }

  lemma FifoRunHits(order: seq<int>, k: nat, run: seq<set<int>>)
    requires |run| == |order| + 1 && forall i :: 0 <= i <= |order| ==> run[i] == Resident(order, k, i)
    ensures Hits(order, run, |order|) == |order| - |Faults(order, k, |order|)|
  {
    var score := FifoScore(order, k);
    forall i | 0 <= i < |order| ensures score[i + 1] == score[i] + if order[i] in run[i] then 1 else 0 {
      FaultsNext(order, k, i);
    }
    HitsAreScore(order, run, score, |order|);
  }

  lemma FifoScore(order: seq<int>, k: nat) returns (score: seq<nat>)
    ensures |score| == |order| + 1 && forall i :: 0 <= i <= |order| ==> score[i] == i - |Faults(order, k, i)|
  {
    score := seq(|order| + 1, n requires 0 <= n <= |order| => n - |Faults(order, k, n)|);
  }
}
