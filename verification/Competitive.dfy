/** How much a policy loses to the optimum (lab9/main.cpp): on every request string, with `k`
    frames against any schedule with `h <= k` frames,
    (k - h + 1) * faults <= k * faults of the other + k * (k - h).
    The string is cut into phases of at most `k` distinct pages; a policy that faults at most once
    per distinct page of a phase pays at most `k` for it, and any schedule pays k - h + 1. */
module Competitive {
  import opened Arith
  import opened FifoPaging
  import opened Lists
  import opened LruPaging
  import opened Paging
  import opened Sets

  /** The distinct pages requested from position `i` up to `j`. */
  ghost function Pages(order: seq<int>, i: nat, j: nat): set<int>
    requires i <= j <= |order|
  {
    set t | i <= t < j :: order[t]
  }

  lemma PagesStep(order: seq<int>, i: nat, j: nat)
    requires i <= j < |order|
    ensures Pages(order, i, j + 1) == Pages(order, i, j) + {order[j]}
  {
  }

  // ----- phases -----

  /** Where the last phase of the first `n` requests starts: phases are as long as `k` distinct
      pages allow. */
  ghost function Start(order: seq<int>, k: nat, n: nat): (s: nat)
    requires 1 <= n <= |order|
    ensures s < n
  {
    if n == 1 then 0
    else if |Pages(order, Start(order, k, n - 1), n)| <= k then Start(order, k, n - 1) else n - 1
  }

  ghost function Phases(order: seq<int>, k: nat, n: nat): nat
    requires 1 <= n <= |order|
  {
    if n == 1 then 1
    else Phases(order, k, n - 1) + if |Pages(order, Start(order, k, n - 1), n)| <= k then 0 else 1
  }

  lemma {:induction false} PhaseIsSmall(order: seq<int>, k: nat, n: nat)
    requires 1 <= n <= |order| && k >= 1
    ensures |Pages(order, Start(order, k, n), n)| <= k
  {
    if Start(order, k, n) == n - 1 {
      assert Pages(order, n - 1, n) == {order[n - 1]};
    }
  }

  // ----- a policy that faults at most k times while at most k pages are requested -----

  ghost predicate Conservative(order: seq<int>, k: nat, faults: seq<nat>) {
    && |faults| == |order| + 1 && faults[0] == 0
    && forall s: nat, n: nat :: s <= n <= |order| && |Pages(order, s, n)| <= k ==> faults[n] <= faults[s] + k
  }

  lemma {:induction false} PaysPerPhase(order: seq<int>, k: nat, faults: seq<nat>, n: nat)
    requires 1 <= n <= |order| && k >= 1 && Conservative(order, k, faults)
    ensures Phases(order, k, n) >= 1 && faults[Start(order, k, n)] <= k * (Phases(order, k, n) - 1)
    ensures faults[n] <= k * Phases(order, k, n)
  {
    var p, s := Phases(order, k, n), Start(order, k, n);
    if n > 1 {
      PaysPerPhase(order, k, faults, n - 1);
    }
    PhaseIsSmall(order, k, n);
    assert faults[n] <= faults[s] + k;
    OnePhaseMore(k, p);
  }

  lemma OnePhaseMore(k: nat, p: int)
    ensures k * p == k * (p - 1) + k
    ensures p * k == (p - 1) * k + k
  {
  }

  // ----- any schedule -----

  ghost function Misses(order: seq<int>, run: seq<set<int>>, n: nat): int
    requires n <= |order| && n <= |run|
  {
    n - Hits(order, run, n)
  }

  lemma {:induction false} MissesGrow(order: seq<int>, run: seq<set<int>>, i: nat, j: nat)
    requires i <= j <= |order| && j <= |run|
    ensures Misses(order, run, i) <= Misses(order, run, j)
  {
    if i < j {
      MissesGrow(order, run, i, j - 1);
    }
  }

  /** Pages come in by faults only, so a stretch costs at least the pages it finds missing. */
  lemma {:induction false} MissesCover(order: seq<int>, h: nat, run: seq<set<int>>, i: nat, j: nat)
    requires i <= j <= |order| && DemandRun(order, h, run)
    ensures run[j] <= run[i] + Pages(order, i, j)
    ensures |Pages(order, i, j) - run[i]| <= Misses(order, run, j) - Misses(order, run, i)
  {
    if i < j {
      MissesCover(order, h, run, i, j - 1);
      PagesStep(order, i, j - 1);
      assert DemandAt(order, h, run, j - 1);
      CoverStep(Pages(order, i, j - 1), run[i], run[j - 1], run[j], order[j - 1]);
    } else {
      assert Pages(order, i, j) == {};
    }
  }

  /** One request: `pages` have been requested since `base` was resident. */
  lemma CoverStep<T>(pages: set<T>, base: set<T>, now: set<T>, next: set<T>, x: T)
    requires now <= base + pages && next <= now + {x}
    ensures next <= base + (pages + {x})
    ensures |(pages + {x}) - base| <= |pages - base| + if x in now then 0 else 1
  {
    if x in now {
      assert (pages + {x}) - base == pages - base;
    } else {
      SubsetCard((pages + {x}) - base, (pages - base) + {x});
    }
  }

  /** From the second request of a phase to the first of the next, k - h + 1 pages are missing. */
  lemma PhaseCosts(order: seq<int>, k: nat, h: nat, run: seq<set<int>>, s: nat, n: nat)
    requires s + 1 < n <= |order| && DemandRun(order, h, run) && |Pages(order, s, n)| > k
    ensures Misses(order, run, n) >= Misses(order, run, s + 1) + (k - h + 1)
  {
    var here, now := Pages(order, s, n), run[s + 1];
    assert DemandAt(order, h, run, s);
    MissesCover(order, h, run, s + 1, n);
    assert Pages(order, s, n) == {order[s]} + Pages(order, s + 1, n);
    assert here - now == Pages(order, s + 1, n) - now;
    DifferenceCard(here, now);
  }

  lemma DifferenceCard<T>(a: set<T>, b: set<T>)
    ensures |a - b| >= |a| - |b|
  {
    SubsetCard(a * b, b);
    assert a == (a - b) + (a * b);
  }

  lemma {:induction false} EveryonePays(order: seq<int>, k: nat, h: nat, run: seq<set<int>>, n: nat)
    requires 1 <= n <= |order| && 1 <= h <= k && DemandRun(order, h, run)
    ensures Phases(order, k, n) >= 1
    ensures Misses(order, run, Start(order, k, n) + 1) >= 1 + (Phases(order, k, n) - 1) * (k - h + 1)
  {
    if n == 1 {
      assert Hits(order, run, 1) == Hits(order, run, 0) == 0;
    } else {
      EveryonePays(order, k, h, run, n - 1);
      var s, p, c := Start(order, k, n - 1), Phases(order, k, n - 1), k - h + 1;
      if |Pages(order, s, n)| > k {
        PhaseCosts(order, k, h, run, s, n);
        OnePhaseMore(c, p);
      }
    }
  }

  /** Requests that were not hits. */
  function Missed(order: seq<int>, hits: int): int {
    |order| - hits
  }

  /** `mine` faults with `k` frames against `other` faults with `h`. */
  predicate Competes(k: nat, h: nat, mine: int, other: int) {
    (k - h + 1) * mine <= k * other + k * (k - h)
  }

  /** The competitive bound for every conservative policy. */
  lemma BoundedLoss(order: seq<int>, k: nat, h: nat, faults: seq<nat>, run: seq<set<int>>)
    requires 1 <= h <= k && Conservative(order, k, faults) && DemandRun(order, h, run)
    ensures Competes(k, h, faults[|order|], Missed(order, Hits(order, run, |order|)))
  {
    var n, c := |order|, k - h + 1;
    if n == 0 {
      MulNonNeg(k, k - h);
    } else {
      var p, s, f, g := Phases(order, k, n), Start(order, k, n), faults[n], Misses(order, run, n);
      PaysPerPhase(order, k, faults, n);
      EveryonePays(order, k, h, run, n);
      MissesGrow(order, run, s + 1, n);
      WeighPhases(k, c, p, f, g);
    }
  }

  lemma WeighPhases(k: nat, c: nat, p: nat, f: int, g: int)
    requires p >= 1 && f <= k * p && g >= 1 + (p - 1) * c
    ensures c * f <= k * g + k * (c - 1)
  {
    MulMono(f, k * p, c);
    MulMono(1 + (p - 1) * c, g, k);
    var x := (p - 1) * c;
    assert (k * p) * c == k * (p * c) == k * (x + c);
    assert (1 + x) * k == k + k * x;
    assert k * (c - 1) == k * c - k;
  }

  // ----- policies under which pages stay -----

  /** Pages that faulted from position `s` up to `n`. */
  ghost function Faulted(order: seq<int>, run: seq<set<int>>, s: nat, n: nat): set<int>
    requires s <= n <= |order| < |run|
  {
    set t | s <= t < n && order[t] !in run[t] :: order[t]
  }

  lemma FaultedStep(order: seq<int>, run: seq<set<int>>, s: nat, m: nat, n: nat)
    requires s <= m && n == m + 1 && n <= |order| < |run|
    ensures Faulted(order, run, s, n) == Faulted(order, run, s, m) + if order[m] in run[m] then {} else {order[m]}
  {
  }

  /** A page that faults while at most `k` pages are requested is still resident at the end. */
  ghost predicate Sticky(order: seq<int>, k: nat, run: seq<set<int>>) {
    && |run| == |order| + 1
    && forall s: nat, n: nat :: s <= n <= |order| && |Pages(order, s, n)| <= k ==> Faulted(order, run, s, n) <= run[n]
  }

  /** So it faults once, and a stretch costs no more than its pages. */
  lemma {:induction false} StickyPays(order: seq<int>, k: nat, run: seq<set<int>>, s: nat, n: nat)
    requires Sticky(order, k, run) && s <= n <= |order| && |Pages(order, s, n)| <= k
    ensures Misses(order, run, n) - Misses(order, run, s) <= |Faulted(order, run, s, n)|
    ensures Faulted(order, run, s, n) <= Pages(order, s, n)
  {
    if s < n {
      var m: nat := n - 1;
      PagesStep(order, s, m);
      SubsetCard(Pages(order, s, m), Pages(order, s, n));
      StickyPays(order, k, run, s, m);
      FaultedStep(order, run, s, m, n);
    }
  }

  lemma {:induction false} FewMisses(order: seq<int>, run: seq<set<int>>, n: nat)
    requires n <= |order| && n <= |run|
    ensures 0 <= Misses(order, run, n)
  {
    if n > 0 {
      FewMisses(order, run, n - 1);
    }
  }

  lemma RunFaults(order: seq<int>, run: seq<set<int>>) returns (faults: seq<nat>)
    requires |run| == |order| + 1
    ensures |faults| == |order| + 1 && forall n :: 0 <= n <= |order| ==> faults[n] == Misses(order, run, n)
  {
    forall n | 0 <= n <= |order| ensures Misses(order, run, n) >= 0 {
      FewMisses(order, run, n);
    }
    faults := seq(|order| + 1, n requires 0 <= n <= |order| => Misses(order, run, n));
  }

  lemma StickyConservative(order: seq<int>, k: nat, run: seq<set<int>>, faults: seq<nat>)
    requires Sticky(order, k, run)
    requires |faults| == |order| + 1 && forall n :: 0 <= n <= |order| ==> faults[n] == Misses(order, run, n)
    ensures Conservative(order, k, faults)
  {
    forall s: nat, n: nat | s <= n <= |order| && |Pages(order, s, n)| <= k ensures faults[n] <= faults[s] + k {
      StickyPays(order, k, run, s, n);
      SubsetCard(Faulted(order, run, s, n), Pages(order, s, n));
    }
  }

  /** The competitive bound for a schedule under which pages stay. */
  lemma StickyCompetes(order: seq<int>, k: nat, h: nat, run: seq<set<int>>, hits: nat)
    requires 1 <= h <= k && Sticky(order, k, run) && Achievable(order, h, hits)
    ensures Competes(k, h, Missed(order, Hits(order, run, |order|)), Missed(order, hits))
  {
    var other :| DemandRun(order, h, other) && Hits(order, other, |order|) == hits;
    var faults := RunFaults(order, run);
    StickyConservative(order, k, run, faults);
    BoundedLoss(order, k, h, faults, other);
  }

  // ----- LRU -----

  /** Within a stretch of at most `k` distinct pages LRU faults at most once per page. */
  lemma {:induction false} LruPays(order: seq<int>, k: nat, s: nat, n: nat)
    requires s <= n <= |order| && |Pages(order, s, n)| <= k
    ensures (n - RecentHits(order, k, n)) - (s - RecentHits(order, k, s)) <= |Pages(order, s, n)|
  {
    if s < n {
      PagesStep(order, s, n - 1);
      SubsetCard(Pages(order, s, n - 1), Pages(order, s, n));
      LruPays(order, k, s, n - 1);
      var x := order[n - 1];
      if x in Pages(order, s, n - 1) {
        SeenMeansHit(order, k, s, n - 1, x);
      }
    }
  }

  /** A page requested within the stretch has fewer than `k` others behind it. */
  lemma SeenMeansHit(order: seq<int>, k: nat, s: nat, n: nat, x: int)
    requires s <= n <= |order| && x in Pages(order, s, n) && |Pages(order, s, n)| <= k
    ensures Recent(order, n, k, x)
  {
    var t :| s <= t < n && order[t] == x;
    assert order[..n][t] == x;
    var j := LastUse(order, n, x);
    assert j >= t;
    assert After(order, n, x) <= Pages(order, s, n) - {x};
    SubsetCard(After(order, n, x), Pages(order, s, n) - {x});
  }

  /** LRU's competitive bound against every schedule with `h` frames. */
  lemma LruCompetitive(order: seq<int>, k: nat, h: nat, hits: nat)
    requires 1 <= h <= k && Achievable(order, h, hits)
    ensures Competes(k, h, Missed(order, RecentHits(order, k, |order|)), Missed(order, hits))
  {
    var run :| DemandRun(order, h, run) && Hits(order, run, |order|) == hits;
    var faults := LruFaults(order, k);
    LruConservative(order, k, faults);
    BoundedLoss(order, k, h, faults, run);
  }

  lemma LruConservative(order: seq<int>, k: nat, faults: seq<nat>)
    requires |faults| == |order| + 1 && forall n :: 0 <= n <= |order| ==> faults[n] == n - RecentHits(order, k, n)
    ensures Conservative(order, k, faults)
  {
    forall s: nat, n: nat | s <= n <= |order| && |Pages(order, s, n)| <= k ensures faults[n] <= faults[s] + k {
      LruPays(order, k, s, n);
    }
  }

  lemma LruFaults(order: seq<int>, k: nat) returns (faults: seq<nat>)
    ensures |faults| == |order| + 1 && forall n :: 0 <= n <= |order| ==> faults[n] == n - RecentHits(order, k, n)
    ensures faults[|order|] == Missed(order, RecentHits(order, k, |order|))
  {
    forall n | 0 <= n <= |order| ensures RecentHits(order, k, n) <= n {
      FewHits(order, k, n);
    }
    faults := seq(|order| + 1, n requires 0 <= n <= |order| => n - RecentHits(order, k, n));
  }

  lemma {:induction false} FewHits(order: seq<int>, k: nat, n: nat)
    requires n <= |order|
    ensures RecentHits(order, k, n) <= n
  {
    if n > 0 {
      FewHits(order, k, n - 1);
    }
  }

  // ----- FIFO -----

  /** Within a stretch of at most `k` distinct pages FIFO faults on each page at most once. */
  lemma {:induction false} FifoPays(order: seq<int>, k: nat, s: nat, n: nat)
    requires s <= n <= |order| && |Pages(order, s, n)| <= k
    ensures var f, g := Faults(order, k, s), Faults(order, k, n);
            |f| <= |g| && Distinct(g[|f|..]) && Elems(g[|f|..]) <= Pages(order, s, n)
  {
    var f := Faults(order, k, s);
    if s < n {
      PagesStep(order, s, n - 1);
      SubsetCard(Pages(order, s, n - 1), Pages(order, s, n));
      FifoPays(order, k, s, n - 1);
      PushPays(Faults(order, k, n - 1), |f|, order[n - 1], k, Pages(order, s, n - 1));
      assert Faults(order, k, n) == Push(Faults(order, k, n - 1), order[n - 1], k);
    } else {
      assert f[|f|..] == [];
    }
  }

  lemma FifoPaysFew(order: seq<int>, k: nat, s: nat, n: nat)
    requires s <= n <= |order| && |Pages(order, s, n)| <= k
    ensures |Faults(order, k, n)| <= |Faults(order, k, s)| + k
  {
    FifoPays(order, k, s, n);
    var part := Faults(order, k, n)[|Faults(order, k, s)|..];
    DistinctCard(part);
    SubsetCard(Elems(part), Pages(order, s, n));
  }

  lemma PushPays(was: seq<int>, m: nat, x: int, k: nat, pages: set<int>)
    requires m <= |was| && |pages| <= k && Distinct(was[m..]) && Elems(was[m..]) <= pages
    ensures var g := Push(was, x, k); m <= |g| && Distinct(g[m..]) && Elems(g[m..]) <= pages + {x}
  {
    if x !in LastK(was, k) {
      FaultJoins(was, m, x, k, pages);
    }
  }

  /** A new fault is on a page that has not faulted in the stretch. */
  lemma FaultJoins(was: seq<int>, m: nat, x: int, k: nat, pages: set<int>)
    requires m <= |was| && x !in LastK(was, k) && |pages| <= k
    requires Distinct(was[m..]) && Elems(was[m..]) <= pages
    ensures Distinct((was + [x])[m..]) && Elems((was + [x])[m..]) <= pages + {x}
  {
    var part := was[m..];
    DistinctCard(part);
    SubsetCard(Elems(part), pages);
    assert (was + [x])[m..] == part + [x];
    forall i | 0 <= i < |part| ensures part[i] != x {
      var last := LastK(was, k);
      assert part[i] == was[m + i] == last[|last| - |part| + i];
    }
    ElemsConcat(part, [x]);
  }

  /** FIFO's competitive bound against every schedule with `h` frames. */
  lemma FifoCompetitive(order: seq<int>, k: nat, h: nat, hits: nat)
    requires 1 <= h <= k && Achievable(order, h, hits)
    ensures Competes(k, h, |Faults(order, k, |order|)|, Missed(order, hits))
  {
    var run :| DemandRun(order, h, run) && Hits(order, run, |order|) == hits;
    var faults := FifoFaults(order, k);
    FifoConservative(order, k, faults);
    BoundedLoss(order, k, h, faults, run);
  }

  lemma FifoConservative(order: seq<int>, k: nat, faults: seq<nat>)
    requires |faults| == |order| + 1 && forall n :: 0 <= n <= |order| ==> faults[n] == |Faults(order, k, n)|
    ensures Conservative(order, k, faults)
  {
    forall s: nat, n: nat | s <= n <= |order| && |Pages(order, s, n)| <= k ensures faults[n] <= faults[s] + k {
      FifoPaysFew(order, k, s, n);
    }
  }

  lemma FifoFaults(order: seq<int>, k: nat) returns (faults: seq<nat>)
    ensures |faults| == |order| + 1 && forall n :: 0 <= n <= |order| ==> faults[n] == |Faults(order, k, n)|
  {
    faults := seq(|order| + 1, n requires 0 <= n <= |order| => |Faults(order, k, n)|);
  }
}
