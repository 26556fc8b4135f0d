/** The segmented cache (lab9/main.cpp, `second_chance`) loses no more to the optimum than LRU and FIFO:
    the LRU segment followed by the FIFO segment is one queue, left only at its front. */
module SegmentCompetitive {
  import opened Competitive
  import opened Lists
  import opened Paging
  import opened SecondChancePaging
  import opened Sets

  /** Every page of `kept` is in the queue, and only pages of `pages` come after it. */
  ghost predicate Trail(queue: seq<int>, kept: set<int>, pages: set<int>) {
    && kept <= Elems(queue) && kept <= pages
    && forall i, j :: 0 <= i < j < |queue| && queue[i] in kept ==> queue[j] in pages
  }

  lemma TrailWider(queue: seq<int>, kept: set<int>, pages: set<int>, x: int)
    requires Trail(queue, kept, pages)
    ensures Trail(queue, kept, pages + {x})
  {
  }

  lemma TrailAppend(queue: seq<int>, kept: set<int>, pages: set<int>, x: int)
    requires Trail(queue, kept, pages) && x !in queue
    ensures Trail(queue + [x], kept + {x}, pages + {x})
  {
    var q := queue + [x];
    ElemsConcat(queue, [x]);
    assert x in Elems([x]);
    forall i, j | 0 <= i < j < |q| && q[i] in kept + {x} ensures q[j] in pages + {x} {
      assert q[i] == queue[i];
    }
  }

  /** What is still to be kept cannot be at the front of a full queue. */
  lemma FrontMayGo(queue: seq<int>, k: nat, kept: set<int>, pages: set<int>, x: int)
    requires Trail(queue, kept, pages) && Distinct(queue) && |queue| == k >= 1 && x !in queue && |pages + {x}| <= k
    ensures queue[0] !in kept
  {
    DistinctCard(queue);
    assert |Elems(queue) + {x}| == k + 1;
    if queue[0] in kept {
      assert Elems(queue) + {x} <= pages + {x};
      SubsetCard(Elems(queue) + {x}, pages + {x});
    }
  }

  lemma TrailPop(queue: seq<int>, kept: set<int>, pages: set<int>)
    requires Trail(queue, kept, pages) && queue != [] && queue[0] !in kept
    ensures Trail(queue[1..], kept, pages)
  {
    var q := queue[1..];
    forall p | p in kept ensures p in q {
      var i :| 0 <= i < |queue| && queue[i] == p;
      assert q[i - 1] == p;
    }
  }

  lemma TrailMove(queue: seq<int>, kept: set<int>, pages: set<int>, x: int)
    requires Trail(queue, kept, pages) && Distinct(queue) && x in queue
    ensures Trail(Without(queue, x) + [x], kept, pages + {x})
  {
    var w := Without(queue, x);
    var q := w + [x];
    WithoutMembers(queue, x);
    forall i, j | 0 <= i < j < |q| && q[i] in kept ensures q[j] in pages + {x} {
      if j < |w| {
        WithoutAt(queue, x, i);
        WithoutAt(queue, x, j);
      }
    }
  }

  // ----- the cache -----

  lemma TrailStep(s: Segments, x: int, k: nat, kept: set<int>, pages: set<int>, kept': set<int>, pages': set<int>)
    requires k >= 2 && Valid(s, k) && Trail(Queue(s), kept, pages) && pages' == pages + {x} && |pages'| <= k
    requires kept' == kept + if x in Resident(s) then {} else {x}
    ensures Trail(Queue(Step(s, x, k)), kept', pages')
  {
    var q := Queue(s);
    QueueDistinct(s, k);
    if x !in s.fifo {
      QueueStep(s, x, k);
    }
    if x in s.fifo {
      TrailWider(q, kept, pages, x);
    } else if x in s.lru {
      TrailMove(q, kept, pages, x);
    } else if |q| < k {
      TrailAppend(q, kept, pages, x);
    } else {
      FrontMayGo(q, k, kept, pages, x);
      TrailPop(q, kept, pages);
      TrailAppend(q[1..], kept, pages, x);
    }
  }

  /** In a stretch of at most `k` pages every fault leaves its page in the queue, followed by pages of
      the stretch alone. */
  lemma {:induction false} SegmentTrail(order: seq<int>, k: nat, run: seq<set<int>>, s: nat, n: nat)
    requires k >= 2 && s <= n <= |order| && |Pages(order, s, n)| <= k
    requires |run| == |order| + 1 && forall i :: 0 <= i <= |order| ==> run[i] == Resident(StateAt(order, k, i))
    ensures Trail(Queue(StateAt(order, k, n)), Faulted(order, run, s, n), Pages(order, s, n))
  {
    if s < n {
      var m: nat := n - 1;
      PagesStep(order, s, m);
      SubsetCard(Pages(order, s, m), Pages(order, s, n));
      SegmentTrail(order, k, run, s, m);
      FaultedStep(order, run, s, m, n);
      StateNext(order, k, m);
      TrailStep(StateAt(order, k, m), order[m], k, Faulted(order, run, s, m), Pages(order, s, m),
                Faulted(order, run, s, n), Pages(order, s, n));
    }
  }

  lemma SegmentSticky(order: seq<int>, k: nat, run: seq<set<int>>)
    requires k >= 2
    requires |run| == |order| + 1 && forall i :: 0 <= i <= |order| ==> run[i] == Resident(StateAt(order, k, i))
    ensures Sticky(order, k, run)
  {
    forall s: nat, n: nat | s <= n <= |order| && |Pages(order, s, n)| <= k
      ensures Faulted(order, run, s, n) <= run[n]
    {
      SegmentTrail(order, k, run, s, n);
      QueueDistinct(StateAt(order, k, n), k);
    }
  }

  /** The segmented cache's competitive bound against every schedule with `h` frames. */
  lemma SegmentCompetes(order: seq<int>, k: nat, h: nat, hits: nat)
    requires 1 <= h <= k && k >= 2 && Achievable(order, h, hits)
    ensures Competes(k, h, Missed(order, SegmentHits(order, k, |order|)), Missed(order, hits))
  {
    var run := SegmentRun(order, k);
    SegmentSticky(order, k, run);
    SegmentRunHits(order, k, run);
    StickyCompetes(order, k, h, run, hits);
  }
}
