/** CLOCK (lab9/main.cpp, `_clock`) loses no more to the optimum than LRU and FIFO: a page that faulted
    leaves only after the hand has come round to it twice, and by then every other frame holds a page
    requested since. */
module ClockCompetitive {
  import opened ClockHistory
  import opened ClockPaging
  import Competitive
  import opened Paging
  import opened Sets

  /** The hand has passed frame `i` since it last passed frame `j`. */
  predicate Behind(hand: nat, j: nat, i: nat) {
    if j < hand then j < i < hand else i > j || i < hand
  }

  /** Frame `i`, seen from a frame whose page is to stay. */
  ghost predicate Recent(f: Slot, pages: set<int>) {
    f.page in pages || !f.bit
  }

  /** The page of frame `j` is safe: in its first turn the frames the hand has passed are recent; once
      its bit is clear all other frames are, and those passed hold requested pages. */
  ghost predicate Safe(frames: seq<Slot>, hand: nat, j: nat, pages: set<int>)
    requires j < |frames|
  {
    && frames[j].page in pages
    && (forall i :: 0 <= i < |frames| && i != j && Behind(hand, j, i) ==>
          Recent(frames[i], pages) && (frames[j].bit || frames[i].page in pages))
    && (!frames[j].bit ==> forall i :: 0 <= i < |frames| && i != j ==> Recent(frames[i], pages))
  }

  /** Every page of `kept` is resident and safe. */
  ghost predicate AllSafe(c: Clock, kept: set<int>, pages: set<int>) {
    && kept <= Pages(c.frames)
    && forall j :: 0 <= j < |c.frames| && c.frames[j].page in kept ==> Safe(c.frames, c.hand, j, pages)
  }

  // ----- a hit -----

  lemma HitSafe(frames: seq<Slot>, hand: nat, j: nat, pages: set<int>, x: int, h: nat)
    requires j < |frames| && h < |frames| && Safe(frames, hand, j, pages) && frames[h].page == x
    ensures Safe(frames[h := frames[h].(bit := true)], hand, j, pages + {x})
  {
    var r := frames[h := frames[h].(bit := true)];
    forall i | 0 <= i < |r| && i != j && Recent(frames[i], pages) ensures Recent(r[i], pages + {x}) {
      assert i == h || r[i] == frames[i];
    }
  }

  // ----- a free frame -----

  lemma AppendSafe(frames: seq<Slot>, k: nat, j: nat, pages: set<int>, x: int)
    requires j < |frames| < k && Safe(frames, |frames|, j, pages)
    ensures Safe(frames + [Slot(x, true)], Wrap(|frames| + 1, k), j, pages + {x})
  {
    var r := frames + [Slot(x, true)];
    forall i | 0 <= i < |frames| ensures r[i] == frames[i] {
    }
  }

  // ----- the sweep -----

  /** The hand passes a frame with a set bit. */
  lemma PassSafe(frames: seq<Slot>, hand: nat, j: nat, pages: set<int>)
    requires j < |frames| && hand < |frames| && frames[hand].bit && Safe(frames, hand, j, pages)
    ensures Safe(frames[hand := frames[hand].(bit := false)], Wrap(hand + 1, |frames|), j, pages)
  {
    var r, next := frames[hand := frames[hand].(bit := false)], Wrap(hand + 1, |frames|);
    forall i | 0 <= i < |r| && i != j && Behind(next, j, i)
      ensures Recent(r[i], pages) && (r[j].bit || r[i].page in pages)
    {
      assert j != hand && (Behind(hand, j, i) || i == hand);
    }
    if j == hand {
      assert forall i :: 0 <= i < |r| && i != j ==> Behind(hand, j, i);
    }
  }

  lemma ClearedNext(frames: seq<Slot>, h: nat, d: nat, more: nat)
    requires h < |frames| && d < |frames| && more == d + 1
    ensures var w := Wrap(h + d, |frames|);
            Wrap(w + 1, |frames|) == Wrap(h + more, |frames|)
            && Cleared(frames, h, more) == Cleared(frames, h, d)[w := Cleared(frames, h, d)[w].(bit := false)]
    ensures Cleared(frames, h, d)[Wrap(h + d, |frames|)] == At(frames, h, d)
  {
    var k, w := |frames|, Wrap(h + d, |frames|);
    assert forall j :: 0 <= j < k ==> (Ahead(h, j, k) < d + 1 <==> Ahead(h, j, k) < d || j == w);
  }

  lemma {:induction false} SweepSafe(frames: seq<Slot>, h: nat, d: nat, j: nat, pages: set<int>)
    requires j < |frames| && h < |frames| && d <= Passed(frames, h, 0) && Safe(frames, h, j, pages)
    ensures Safe(Cleared(frames, h, d), Wrap(h + d, |frames|), j, pages)
  {
    if d == 0 {
      assert Cleared(frames, h, 0) == frames;
    } else {
      var e: nat := d - 1;
      SweepSafe(frames, h, e, j, pages);
      ClearedNext(frames, h, e, d);
      PassSafe(Cleared(frames, h, e), Wrap(h + e, |frames|), j, pages);
    }
  }

  lemma PagesFull(frames: seq<Slot>)
    requires forall i, j :: 0 <= i < j < |frames| ==> frames[i].page != frames[j].page
    ensures |Pages(frames)| == |frames|
    decreases |frames|
  {
    if frames != [] {
      var init, last := frames[..|frames| - 1], frames[|frames| - 1].page;
      PagesFull(init);
      assert Pages(frames) == Pages(init) + {last};
      assert last !in Pages(init);
    }
  }

  /** A safe page is not under the hand when the hand stops: `x` would be one page too many. */
  lemma SafeIsNotVictim(frames: seq<Slot>, hand: nat, pages: set<int>, x: int)
    requires hand < |frames| && !frames[hand].bit && !Holds(frames, x) && |pages + {x}| <= |frames|
    requires forall i, j :: 0 <= i < j < |frames| ==> frames[i].page != frames[j].page
    ensures !Safe(frames, hand, hand, pages)
  {
    PagesFull(frames);
    HoldsIsMember(frames, x);
    assert |Pages(frames) + {x}| == |frames| + 1;
    if Safe(frames, hand, hand, pages) {
      assert forall i :: 0 <= i < |frames| && i != hand ==> Behind(hand, hand, i);
      assert Pages(frames) + {x} <= pages + {x};
      SubsetCard(Pages(frames) + {x}, pages + {x});
    }
  }

  lemma ReplaceSafe(frames: seq<Slot>, hand: nat, j: nat, pages: set<int>, x: int)
    requires j < |frames| && hand < |frames| && j != hand && Safe(frames, hand, j, pages)
    ensures Safe(frames[hand := Slot(x, true)], Wrap(hand + 1, |frames|), j, pages + {x})
  {
    var r, next := frames[hand := Slot(x, true)], Wrap(hand + 1, |frames|);
    forall i | 0 <= i < |r| && i != j && Behind(next, j, i) ensures Behind(hand, j, i) || i == hand {
    }
  }

  /** A page just brought in: no frame is behind it yet. */
  lemma NewSafe(frames: seq<Slot>, hand: nat, j: nat, pages: set<int>)
    requires j < |frames| && frames[j].bit && frames[j].page in pages
    requires hand == j + 1 || (hand == 0 && j == |frames| - 1)
    ensures Safe(frames, hand, j, pages)
  {
  }

  // ----- one request -----

  lemma HitStep(c: Clock, x: int, k: nat, kept: set<int>, pages: set<int>)
    requires k >= 1 && Valid(c, k) && Holds(c.frames, x) && AllSafe(c, kept, pages)
    ensures AllSafe(ClockStep(c, x, k), kept, pages + {x})
  {
    var h, r := FrameOf(c.frames, x), ClockStep(c, x, k).frames;
    PagesReplaced(c.frames, h, c.frames[h].(bit := true));
    forall j | 0 <= j < |r| && r[j].page in kept ensures Safe(r, c.hand, j, pages + {x}) {
      HitSafe(c.frames, c.hand, j, pages, x, h);
    }
  }

  lemma AppendStep(c: Clock, x: int, k: nat, kept: set<int>, pages: set<int>)
    requires k >= 1 && Valid(c, k) && !Holds(c.frames, x) && |c.frames| < k && AllSafe(c, kept, pages)
    ensures AllSafe(ClockStep(c, x, k), kept + {x}, pages + {x})
  {
    var c' := ClockStep(c, x, k);
    PagesAppended(c.frames, Slot(x, true));
    forall j | 0 <= j < |c'.frames| && c'.frames[j].page in kept + {x}
      ensures Safe(c'.frames, c'.hand, j, pages + {x})
    {
      if j == |c.frames| {
        NewSafe(c'.frames, c'.hand, j, pages + {x});
      } else {
        assert c'.frames[j] == c.frames[j] && c.frames[j].page != x;
        AppendSafe(c.frames, k, j, pages, x);
      }
    }
  }

  /** The hand has stopped over a frame with a clear bit. */
  lemma ReplaceStep(frames: seq<Slot>, hand: nat, x: int, kept: set<int>, pages: set<int>, next: Clock)
    requires hand < |frames| && !frames[hand].bit && !Holds(frames, x) && |pages + {x}| <= |frames|
    requires forall i, j :: 0 <= i < j < |frames| ==> frames[i].page != frames[j].page
    requires AllSafe(Clock(frames, hand), kept, pages)
    requires next == Clock(frames[hand := Slot(x, true)], Wrap(hand + 1, |frames|))
    ensures AllSafe(next, kept + {x}, pages + {x})
  {
    var r := next.frames;
    SafeIsNotVictim(frames, hand, pages, x);
    PagesReplaced(frames, hand, Slot(x, true));
    forall j | 0 <= j < |r| && r[j].page in kept + {x} ensures Safe(r, next.hand, j, pages + {x}) {
      if j == hand {
        NewSafe(r, next.hand, j, pages + {x});
      } else {
        assert frames[j].page != x;
        ReplaceSafe(frames, hand, j, pages, x);
      }
    }
  }

  /** Sweeping keeps every page safe. */
  lemma SweptSafe(c: Clock, d: nat, kept: set<int>, pages: set<int>, swept: Clock)
    requires c.hand < |c.frames| && d <= Passed(c.frames, c.hand, 0) && AllSafe(c, kept, pages)
    requires swept == Clock(Cleared(c.frames, c.hand, d), Wrap(c.hand + d, |c.frames|))
    ensures AllSafe(swept, kept, pages)
  {
    PagesCleared(c.frames, c.hand, d);
    forall j | 0 <= j < |swept.frames| && swept.frames[j].page in kept
      ensures Safe(swept.frames, swept.hand, j, pages)
    {
      SweepSafe(c.frames, c.hand, d, j, pages);
    }
  }

  lemma FullStep(c: Clock, x: int, k: nat, kept: set<int>, pages: set<int>)
    requires k >= 1 && Valid(c, k) && !Holds(c.frames, x) && |c.frames| == k && AllSafe(c, kept, pages)
    requires |pages + {x}| <= k
    ensures AllSafe(ClockStep(c, x, k), kept + {x}, pages + {x})
  {
    var d := Passed(c.frames, c.hand, 0);
    var swept := Clock(Cleared(c.frames, c.hand, d), Wrap(c.hand + d, k));
    SweptSafe(c, d, kept, pages, swept);
    StoppedClear(c.frames, c.hand, d);
    SweptHolds(c.frames, c.hand, d, x);
    SweptDistinct(c.frames, c.hand, d);
    ReplaceStep(swept.frames, swept.hand, x, kept, pages, ClockStep(c, x, k));
  }

  lemma SweptDistinct(frames: seq<Slot>, h: nat, d: nat)
    requires forall i, j :: 0 <= i < j < |frames| ==> frames[i].page != frames[j].page
    ensures var r := Cleared(frames, h, d); forall i, j :: 0 <= i < j < |r| ==> r[i].page != r[j].page
  {
  }

  lemma StoppedClear(frames: seq<Slot>, h: nat, d: nat)
    requires h < |frames| && d == Passed(frames, h, 0)
    ensures !Cleared(frames, h, d)[Wrap(h + d, |frames|)].bit
  {
    if d < |frames| {
      ClearedNext(frames, h, d, d + 1);
    }
  }

  lemma SweptHolds(frames: seq<Slot>, h: nat, d: nat, x: int)
    ensures Holds(Cleared(frames, h, d), x) <==> Holds(frames, x)
  {
    PagesCleared(frames, h, d);
    HoldsIsMember(frames, x);
    HoldsIsMember(Cleared(frames, h, d), x);
  }

  lemma SafeStep(c: Clock, x: int, k: nat, kept: set<int>, pages: set<int>, kept': set<int>, pages': set<int>)
    requires k >= 1 && Valid(c, k) && AllSafe(c, kept, pages) && pages' == pages + {x} && |pages'| <= k
    requires kept' == kept + if x in Pages(c.frames) then {} else {x}
    ensures AllSafe(ClockStep(c, x, k), kept', pages')
  {
    HoldsIsMember(c.frames, x);
    if Holds(c.frames, x) {
      HitStep(c, x, k, kept, pages);
      assert kept' == kept;
    } else if |c.frames| < k {
      AppendStep(c, x, k, kept, pages);
    } else {
      FullStep(c, x, k, kept, pages);
    }
  }

  // ----- whole strings -----

  /** `run` lists the resident sets of CLOCK. */
  ghost predicate IsClockRun(order: seq<int>, k: nat, run: seq<set<int>>) {
    && k >= 1 && NoMarker(order) && |run| == |order| + 1
    && forall i :: 0 <= i <= |order| ==> run[i] == Pages(ClockAt(order, k, i).frames)
  }

  /** Every page that faulted from `s` up to `n` is safe. */
  ghost predicate SafeAt(order: seq<int>, k: nat, run: seq<set<int>>, s: nat, n: nat)
    requires IsClockRun(order, k, run) && s <= n <= |order|
  {
    AllSafe(ClockAt(order, k, n), Competitive.Faulted(order, run, s, n), Competitive.Pages(order, s, n))
  }

  lemma SafeNext(order: seq<int>, k: nat, run: seq<set<int>>, s: nat, m: nat, n: nat)
    requires IsClockRun(order, k, run) && s <= m && n == m + 1 && n <= |order| && SafeAt(order, k, run, s, m)
    requires |Competitive.Pages(order, s, n)| <= k
    ensures SafeAt(order, k, run, s, n)
  {
    Competitive.PagesStep(order, s, m);
    Competitive.FaultedStep(order, run, s, m, n);
    ClockNext(order, k, m);
    SafeStep(ClockAt(order, k, m), order[m], k, Competitive.Faulted(order, run, s, m),
             Competitive.Pages(order, s, m), Competitive.Faulted(order, run, s, n), Competitive.Pages(order, s, n));
  }

  /** In a stretch of at most `k` pages every page that faults stays safe. */
  lemma {:induction false} ClockSafe(order: seq<int>, k: nat, run: seq<set<int>>, s: nat, n: nat)
    requires IsClockRun(order, k, run) && s <= n <= |order| && |Competitive.Pages(order, s, n)| <= k
    ensures SafeAt(order, k, run, s, n)
  {
    if s < n {
      var m: nat := n - 1;
      Competitive.PagesStep(order, s, m);
      SubsetCard(Competitive.Pages(order, s, m), Competitive.Pages(order, s, n));
      ClockSafe(order, k, run, s, m);
      SafeNext(order, k, run, s, m, n);
    } else {
      assert Competitive.Faulted(order, run, s, n) == {};
    }
  }

  lemma ClockSticky(order: seq<int>, k: nat, run: seq<set<int>>)
    requires IsClockRun(order, k, run)
    ensures Competitive.Sticky(order, k, run)
  {
    forall s: nat, n: nat | s <= n <= |order| && |Competitive.Pages(order, s, n)| <= k
      ensures Competitive.Faulted(order, run, s, n) <= run[n]
    {
      ClockSafe(order, k, run, s, n);
    }
  }

  /** CLOCK's competitive bound against every schedule with `h` frames. */
  lemma ClockCompetes(order: seq<int>, k: nat, h: nat, hits: nat)
    requires 1 <= h <= k && NoMarker(order) && Achievable(order, h, hits)
    ensures Competitive.Competes(k, h, Competitive.Missed(order, ClockHits(order, k, |order|)),
                                 Competitive.Missed(order, hits))
  {
    var run := ClockRun(order, k);
    ClockSticky(order, k, run);
    ClockRunHits(order, k, run);
    Competitive.StickyCompetes(order, k, h, run, hits);
  }
}
