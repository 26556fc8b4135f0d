/** CLOCK (lab9/main.cpp, `_clock`): frames on a ring, each with a reference bit. The program
    scans a slot vector with empty slots marked -1; the specification below fills frames first
    and then names the victim outright. */
module ClockPaging {
  import opened Arith
  import opened ClockHistory
  import opened Guard
  import opened Paging

  datatype Slot = Slot(page: int, bit: bool)

  /** The occupied frames and the position of the hand. */
  datatype Clock = Clock(frames: seq<Slot>, hand: nat)

  const EMPTY := Slot(-1, false)

  // ----- specification -----

  /** The frame at distance `i` from the hand. */
  function At(frames: seq<Slot>, hand: nat, i: nat): Slot
    requires hand < |frames| && i <= |frames|
  {
    frames[Wrap(hand + i, |frames|)]
  }

  /** Frames the hand passes, from distance `e` on, before it meets a clear bit; `k` if it meets none. */
  function Passed(frames: seq<Slot>, hand: nat, e: nat): (d: nat)
    requires hand < |frames| && e <= |frames|
    ensures e <= d <= |frames|
    ensures forall i :: e <= i < d ==> At(frames, hand, i).bit
    ensures d < |frames| ==> !At(frames, hand, d).bit
    decreases |frames| - e
  {
    if e == |frames| || !At(frames, hand, e).bit then e
    else Passed(frames, hand, e + 1)
  }

  /** Clear the bits of the first `d` frames from the hand on. */
  function Cleared(frames: seq<Slot>, hand: nat, d: nat): (r: seq<Slot>)
    ensures |r| == |frames|
  {
    seq(|frames|, j requires 0 <= j < |frames| =>
      if Ahead(hand, j, |frames|) < d then frames[j].(bit := false) else frames[j])
  }

  predicate Holds(frames: seq<Slot>, x: int) {
    exists j :: 0 <= j < |frames| && frames[j].page == x
  }

  function FrameOf(frames: seq<Slot>, x: int): (j: nat)
    requires Holds(frames, x)
    ensures j < |frames| && frames[j].page == x
    ensures forall i :: 0 <= i < j ==> frames[i].page != x
  {
    if frames[0].page == x then 0 else 1 + FrameOf(frames[1..], x)
  }

  function ClockStep(c: Clock, x: int, k: nat): Clock
    requires k >= 1 && |c.frames| <= k && c.hand < k
  {
    if Holds(c.frames, x) then
      var j := FrameOf(c.frames, x);
      c.(frames := c.frames[j := c.frames[j].(bit := true)])
    else if |c.frames| < k then
      Clock(c.frames + [Slot(x, true)], Wrap(c.hand + 1, k))
    else
      var d := Passed(c.frames, c.hand, 0);
      var victim := Wrap(c.hand + d, k);
      Clock(Cleared(c.frames, c.hand, d)[victim := Slot(x, true)], Wrap(victim + 1, k))
  }

  /** While frames remain free the hand points at the next free one. */
  predicate Valid(c: Clock, k: nat) {
    && |c.frames| <= k && c.hand < k
    && (|c.frames| < k ==> c.hand == |c.frames|)
    && (forall j :: 0 <= j < |c.frames| ==> c.frames[j].page != -1)
    && (forall i, j :: 0 <= i < j < |c.frames| ==> c.frames[i].page != c.frames[j].page)
  }

  lemma StepValid(c: Clock, x: int, k: nat)
    requires k >= 1 && Valid(c, k) && x != -1
    ensures Valid(ClockStep(c, x, k), k)
  {
    if Holds(c.frames, x) {
      HitValid(c, x, k);
    } else if |c.frames| == k {
      MissValid(c, x, k);
    }
  }

  lemma HitValid(c: Clock, x: int, k: nat)
    requires k >= 1 && Valid(c, k) && Holds(c.frames, x)
    ensures Valid(ClockStep(c, x, k), k)
  {
    var r := ClockStep(c, x, k).frames;
    assert forall j :: 0 <= j < |r| ==> r[j].page == c.frames[j].page;
  }

  lemma MissValid(c: Clock, x: int, k: nat)
    requires k >= 1 && Valid(c, k) && x != -1 && !Holds(c.frames, x) && |c.frames| == k
    ensures Valid(ClockStep(c, x, k), k)
  {
    var r, victim := ClockStep(c, x, k).frames, Wrap(c.hand + Passed(c.frames, c.hand, 0), k);
    assert forall j :: 0 <= j < k ==> r[j].page == if j == victim then x else c.frames[j].page;
  }

  /** No page is the marker of an empty slot. */
  predicate NoMarker(order: seq<int>) {
    forall i :: 0 <= i < |order| ==> order[i] != -1
  }

  function ClockAt(order: seq<int>, k: nat, n: nat): (c: Clock)
    requires k >= 1 && n <= |order| && NoMarker(order)
    ensures Valid(c, k) && |c.frames| <= n
  {
    if n == 0 then Clock([], 0)
    else
      var c := ClockAt(order, k, n - 1);
      StepValid(c, order[n - 1], k);
      ClockStep(c, order[n - 1], k)
  }

  ghost function ClockHits(order: seq<int>, k: nat, n: nat): nat
    requires k >= 1 && n <= |order| && NoMarker(order)
  {
    if n == 0 then 0
    else ClockHits(order, k, n - 1) + if Holds(ClockAt(order, k, n - 1).frames, order[n - 1]) then 1 else 0
  }

  // ----- CLOCK as a demand-paging schedule -----

  ghost function Pages(frames: seq<Slot>): set<int> {
    set j | 0 <= j < |frames| :: frames[j].page
  }

  lemma {:induction false} PagesCard(frames: seq<Slot>)
    ensures |Pages(frames)| <= |frames|
  {
    if frames != [] {
      var init := frames[..|frames| - 1];
      PagesCard(init);
      assert Pages(frames) == Pages(init) + {frames[|frames| - 1].page};
    }
  }

  lemma ClockStepIsDemand(c: Clock, x: int, k: nat)
    requires k >= 1 && Valid(c, k) && x != -1
    ensures DemandStep(Pages(c.frames), x, k, Pages(ClockStep(c, x, k).frames))
  {
    var c' := ClockStep(c, x, k);
    StepValid(c, x, k);
    PagesCard(c'.frames);
    if Holds(c.frames, x) {
      assert forall j :: 0 <= j < |c.frames| ==> c'.frames[j].page == c.frames[j].page;
      var j := FrameOf(c.frames, x);
      assert c'.frames[j].page == x;
    } else if |c.frames| < k {
      assert c'.frames[|c.frames|].page == x;
    } else {
      var victim := Wrap(c.hand + Passed(c.frames, c.hand, 0), k);
      assert c'.frames[victim].page == x;
      assert forall j :: 0 <= j < k && j != victim ==> c'.frames[j].page == c.frames[j].page;
    }
  }

  lemma ClockRun(order: seq<int>, k: nat) returns (run: seq<set<int>>)
    requires k >= 1 && NoMarker(order)
    ensures |run| == |order| + 1 && forall i :: 0 <= i <= |order| ==> run[i] == Pages(ClockAt(order, k, i).frames)
  {
    run := seq(|order| + 1, n requires 0 <= n <= |order| => Pages(ClockAt(order, k, n).frames));
  }

  /** CLOCK is a demand-paging schedule, so MIN is never worse. */
  lemma ClockIsAchievable(order: seq<int>, k: nat)
    requires k >= 1 && NoMarker(order)
    ensures Achievable(order, k, ClockHits(order, k, |order|))
  {
    var run := ClockRun(order, k);
    forall i | 0 <= i < |order| ensures DemandAt(order, k, run, i) {
      ClockStepIsDemand(ClockAt(order, k, i), order[i], k);
    }
    ClockRunHits(order, k, run);
  }

  lemma ClockRunHits(order: seq<int>, k: nat, run: seq<set<int>>)
    requires k >= 1 && NoMarker(order)
    requires |run| == |order| + 1 && forall i :: 0 <= i <= |order| ==> run[i] == Pages(ClockAt(order, k, i).frames)
    ensures Hits(order, run, |order|) == ClockHits(order, k, |order|)
  {
    var score := ClockScore(order, k);
    forall i | 0 <= i < |order| ensures score[i + 1] == score[i] + if order[i] in run[i] then 1 else 0 {
      HoldsIsMember(ClockAt(order, k, i).frames, order[i]);
    }
    HitsAreScore(order, run, score, |order|);
  }

  lemma ClockScore(order: seq<int>, k: nat) returns (score: seq<nat>)
    requires k >= 1 && NoMarker(order)
    ensures |score| == |order| + 1 && forall i :: 0 <= i <= |order| ==> score[i] == ClockHits(order, k, i)
  {
    score := seq(|order| + 1, n requires 0 <= n <= |order| => ClockHits(order, k, n));
  }

  lemma HoldsIsMember(frames: seq<Slot>, x: int)
    ensures x in Pages(frames) <==> Holds(frames, x)
  {
  }

  // ----- what the reference bits mean -----

  /** The frames of a ring, with a bit set exactly where the page is wanted. */
  ghost function Bits(order: seq<int>, n: nat, r: Ring): (frames: seq<Slot>)
    requires n <= |order| && |r.left| == |r.pages|
    ensures |frames| == |r.pages|
    ensures forall j :: 0 <= j < |frames| ==> frames[j] == Slot(r.pages[j], Wanted(order, n, r, j))
  {
    seq(|r.pages|, j requires 0 <= j < |r.pages| => Slot(r.pages[j], Wanted(order, n, r, j)))
  }

  /** One more request. */
  lemma SinceNext(order: seq<int>, a: nat, n: nat, next: nat, p: int)
    requires n < |order| && next == n + 1
    ensures Since(order, a, next, p) <==> Since(order, a, n, p) || (a <= n && order[n] == p)
  {
    if a <= n && order[n] == p {
      assert order[n] == p;
    }
  }

  lemma HitBits(order: seq<int>, n: nat, next: nat, r: Ring, k: nat)
    requires n < |order| && next == n + 1 && k >= 1 && Fine(r, k) && Valid(Clock(Bits(order, n, r), r.hand), k)
    requires (forall j :: 0 <= j < |r.left| ==> r.left[j] <= n) && order[n] in r.pages
    ensures ClockStep(Clock(Bits(order, n, r), r.hand), order[n], k) == Clock(Bits(order, next, r), r.hand)
  {
    var was, now, x := Bits(order, n, r), Bits(order, next, r), order[n];
    var h :| 0 <= h < |r.pages| && r.pages[h] == x;
    assert was[h].page == x;
    var f := FrameOf(was, x);
    forall j | 0 <= j < |was| ensures now[j] == if j == f then was[j].(bit := true) else was[j] {
      SinceNext(order, r.left[j], n, next, r.pages[j]);
    }
  }

  lemma FreeBits(order: seq<int>, n: nat, next: nat, r: Ring, k: nat)
    requires n < |order| && next == n + 1 && k >= 1 && Fine(r, k) && Valid(Clock(Bits(order, n, r), r.hand), k)
    requires order[n] !in r.pages && |r.pages| < k
    ensures var s := Served(order, n, r, k);
            ClockStep(Clock(Bits(order, n, r), r.hand), order[n], k) == Clock(Bits(order, next, s), s.hand)
  {
    var s, x := Served(order, n, r, k), order[n];
    var was, now := Bits(order, n, r), Bits(order, next, s);
    forall j | 0 <= j < |now| ensures now[j] == (was + [Slot(x, true)])[j] {
      SinceNext(order, s.left[j], n, next, s.pages[j]);
    }
    assert now == was + [Slot(x, true)];
  }

  /** The hand passes the same frames. */
  lemma {:induction false} SamePassed(order: seq<int>, n: nat, r: Ring, e: nat)
    requires n <= |order| && |r.left| == |r.pages| && r.hand < |r.pages| && e <= |r.pages|
    ensures Passed(Bits(order, n, r), r.hand, e) == Turn(order, n, r, e)
    decreases |r.pages| - e
  {
    if e < |r.pages| && Wanted(order, n, r, Place(r, e)) {
      SamePassed(order, n, r, e + 1);
    }
  }

  lemma FullBits(order: seq<int>, n: nat, next: nat, r: Ring, k: nat)
    requires n < |order| && next == n + 1 && k >= 1 && Fine(r, k) && Valid(Clock(Bits(order, n, r), r.hand), k)
    requires order[n] !in r.pages && |r.pages| == k
    ensures var s := Served(order, n, r, k);
            ClockStep(Clock(Bits(order, n, r), r.hand), order[n], k) == Clock(Bits(order, next, s), s.hand)
  {
    var s, x := Served(order, n, r, k), order[n];
    var was, now := Bits(order, n, r), Bits(order, next, s);
    var d := Turn(order, n, r, 0);
    SamePassed(order, n, r, 0);
    var victim := Wrap(r.hand + d, k);
    var swept := Cleared(was, r.hand, d)[victim := Slot(x, true)];
    forall j | 0 <= j < k ensures now[j] == swept[j] {
      FullBit(order, n, next, r, k, d, victim, j);
    }
    assert now == swept;
  }

  /** One frame after a miss on a full ring. */
  lemma FullBit(order: seq<int>, n: nat, next: nat, r: Ring, k: nat, d: nat, victim: nat, j: nat)
    requires n < |order| && next == n + 1 && k >= 1 && Fine(r, k) && order[n] !in r.pages && |r.pages| == k
    requires d == Turn(order, n, r, 0) && victim == Wrap(r.hand + d, k) && j < k
    ensures var s := Served(order, n, r, k);
            Wanted(order, next, s, j)
            <==> j == victim || (Ahead(r.hand, j, k) >= d && Wanted(order, n, r, j))
    ensures Served(order, n, r, k).pages[j] == if j == victim then order[n] else r.pages[j]
  {
    var s := Served(order, n, r, k);
    SinceNext(order, s.left[j], n, next, s.pages[j]);
  }

  lemma BitsStep(order: seq<int>, n: nat, next: nat, r: Ring, k: nat)
    requires n < |order| && next == n + 1 && k >= 1 && Fine(r, k) && Valid(Clock(Bits(order, n, r), r.hand), k)
    requires forall j :: 0 <= j < |r.left| ==> r.left[j] <= n
    ensures var s := Served(order, n, r, k);
            ClockStep(Clock(Bits(order, n, r), r.hand), order[n], k) == Clock(Bits(order, next, s), s.hand)
  {
    if order[n] in r.pages {
      HitBits(order, n, next, r, k);
    } else if |r.pages| < k {
      FreeBits(order, n, next, r, k);
    } else {
      FullBits(order, n, next, r, k);
    }
  }

  /** A frame's bit is set exactly when its page was requested since the hand last left the frame, so
      the victim is the first page from the hand that nobody asked for since. */
  lemma {:induction false} BitMeansRequested(order: seq<int>, k: nat, n: nat)
    requires k >= 1 && n <= |order| && NoMarker(order)
    ensures ClockAt(order, k, n) == Clock(Bits(order, n, RingAt(order, k, n)), RingAt(order, k, n).hand)
    ensures ClockHits(order, k, n) == TurnHits(order, k, n)
  {
    if n > 0 {
      var m: nat := n - 1;
      BitMeansRequested(order, k, m);
      var r := RingAt(order, k, m);
      RingNext(order, k, m, n);
      ClockNext(order, k, m);
      BitsStep(order, m, n, r, k);
      OnRing(order, m, r, order[m]);
    }
  }

  lemma OnRing(order: seq<int>, n: nat, r: Ring, x: int)
    requires n <= |order| && |r.left| == |r.pages|
    ensures Holds(Bits(order, n, r), x) <==> x in r.pages
  {
    var frames := Bits(order, n, r);
    if x in r.pages {
      var j :| 0 <= j < |r.pages| && r.pages[j] == x;
      assert frames[j].page == x;
    }
  }

  /** The second chance: a page that is hit survives the next miss as long as some other frame's bit is
      clear. */
  lemma SecondChance(c: Clock, x: int, y: int, k: nat, i: nat)
    requires k >= 1 && Valid(c, k) && Holds(c.frames, x) && y != -1 && !Holds(c.frames, y)
    requires i < |c.frames| && c.frames[i].page != x && !c.frames[i].bit
    ensures Holds(ClockStep(ClockStep(c, x, k), y, k).frames, x)
  {
    var c1, j := ClockStep(c, x, k), FrameOf(c.frames, x);
    assert c1.frames[j] == Slot(x, true) && !c1.frames[i].bit;
    if |c.frames| == k {
      assert At(c1.frames, c1.hand, Ahead(c1.hand, i, k)) == c1.frames[i];
      var d := Passed(c1.frames, c1.hand, 0);
      var victim := Wrap(c1.hand + d, k);
      assert At(c1.frames, c1.hand, d) == c1.frames[victim];
      assert ClockStep(c1, y, k).frames[j].page == x;
    } else {
      assert ClockStep(c1, y, k).frames[j].page == x;
    }
  }

  // ----- the program -----

  /** `get_ind`: bring a position back into 1..k. */
  method GetInd(start: nat, k: nat) returns (ind: nat)
    requires k >= 1 && start >= 1
    ensures ind == (start - 1) % k + 1
    ensures start <= k ==> ind == start
    ensures start == k + 1 ==> ind == 1
  {
    ind := start;
    while ind > k
      invariant 1 <= ind <= start && SameTurn(ind - 1, start - 1, k)
      invariant start <= k ==> ind == start
      invariant start == k + 1 ==> ind == start || ind == 1
    {
      OneTurnLess(ind - 1, start - 1, k);
      ind := ind - k;
    }
    SmallRemainder(ind - 1, k);
  }

  ghost predicate SameTurn(a: int, b: int, k: int)
    requires k >= 1
  {
    a % k == b % k
  }

  lemma OneTurnLess(a: int, b: int, k: int)
    requires k >= 1 && SameTurn(a, b, k)
    ensures SameTurn(a - k, b, k)
  {
    assert a == (a / k) * k + a % k;
    assert (a / k - 1) * k == (a / k) * k - k;
    DivModUnique(a - k, a / k - 1, a % k, k);
  }

  lemma SmallRemainder(a: int, k: int)
    requires 0 <= a < k
    ensures a % k == a
  {
  }

  /** The slot vector (index 0 unused, N + 1 entries) represents the frames: occupied slots
      from 1 on, every other slot empty with a clear bit. */
  ghost predicate Rep(vec: seq<Slot>, frames: seq<Slot>) {
    && |frames| < |vec|
    && (forall s :: 1 <= s <= |frames| ==> vec[s] == frames[s - 1])
    && (forall s :: |frames| < s < |vec| ==> vec[s] == EMPTY)
    && vec[0] == EMPTY
  }

  /** `_find`: first slot holding the page. */
  method Find(vec: seq<Slot>, x: int, ghost frames: seq<Slot>) returns (s: nat)
    requires Rep(vec, frames) && Holds(frames, x) && x != -1
    ensures s == FrameOf(frames, x) + 1
  {
    s := 0;
    while vec[s].page != x
      invariant s <= FrameOf(frames, x) + 1
      decreases |vec| - s
    {
      s := s + 1;
    }
  }

  /** Clearing the bit under the hand turns "first `d` cleared" into "first `d + 1` cleared". */
  lemma ClearNext(vec: seq<Slot>, frames: seq<Slot>, h: nat, d: nat)
    requires h < |frames| && d < |frames| && Rep(vec, Cleared(frames, h, d))
    ensures var s := Wrap(h + d, |frames|) + 1;
            Rep(vec[s := vec[s].(bit := false)], Cleared(frames, h, d + 1))
  {
    var k, s := |frames|, Wrap(h + d, |frames|) + 1;
    assert forall j :: 0 <= j < k ==> (Ahead(h, j, k) < d + 1 <==> Ahead(h, j, k) < d || j == s - 1);
  }

  /** The bit met after passing `d` set bits decides whether the hand stops there. */
  lemma StopHere(vec: seq<Slot>, frames: seq<Slot>, h: nat, d: nat)
    requires h < |frames| && d <= Passed(frames, h, 0) && Rep(vec, Cleared(frames, h, d))
    ensures !vec[Wrap(h + d, |frames|) + 1].bit <==> d == Passed(frames, h, 0)
  {
    var k, j := |frames|, Wrap(h + d, |frames|);
    assert vec[j + 1] == Cleared(frames, h, d)[j];
    if d < k {
      assert At(frames, h, d) == frames[j];
    }
  }

  /** The hand has passed `d` frames with set bits and cleared them. */
  ghost predicate Sweeping(vec: seq<Slot>, hand: nat, frames: seq<Slot>, h: nat, d: nat) {
    && h < |frames| && d <= Passed(frames, h, 0)
    && Rep(vec, Cleared(frames, h, d))
    && hand == Wrap(h + d, |frames|) + 1
    && (!vec[hand].bit <==> d == Passed(frames, h, 0))
  }

  lemma SweepStarts(vec: seq<Slot>, hand: nat, frames: seq<Slot>, h: nat)
    requires Rep(vec, frames) && hand == h + 1 <= |frames|
    ensures Sweeping(vec, hand, frames, h, 0)
  {
    assert Cleared(frames, h, 0) == frames;
    StopHere(vec, frames, h, 0);
  }

  lemma SweepContinues(vec: seq<Slot>, hand: nat, frames: seq<Slot>, h: nat, d: nat, hand': nat)
    requires Sweeping(vec, hand, frames, h, d) && vec[hand].bit
    requires hand' == if hand == |frames| then 1 else hand + 1
    ensures Sweeping(vec[hand := vec[hand].(bit := false)], hand', frames, h, d + 1)
  {
    var vec' := vec[hand := vec[hand].(bit := false)];
    assert Rep(vec', Cleared(frames, h, d + 1)) by {
      ClearNext(vec, frames, h, d);
    }
    StopHere(vec', frames, h, d + 1);
  }

  /** The victim loop after `d` turns; with a free frame under the hand it makes none. */
  ghost predicate Probed(vec: seq<Slot>, hand: nat, start: seq<Slot>, h: nat, k: nat, frames: seq<Slot>, d: nat) {
    && |vec| == |start| && 1 <= hand < |vec|
    && (|frames| < k ==> vec == start && hand == h + 1 && d == 0 && !vec[hand].bit)
    && (|frames| >= k ==> Sweeping(vec, hand, frames, h, d))
  }

  ghost predicate Probing(vec: seq<Slot>, hand: nat, start: seq<Slot>, h: nat, k: nat, frames: seq<Slot>, d: nat) {
    forall e :: Is(e, d) ==> Probed(vec, hand, start, h, k, frames, e)
  }

  lemma ProbingIs(vec: seq<Slot>, hand: nat, start: seq<Slot>, h: nat, k: nat, frames: seq<Slot>, d: nat)
    ensures Probing(vec, hand, start, h, k, frames, d) <==> Probed(vec, hand, start, h, k, frames, d)
  {
    assert Is(d, d);
  }

  lemma ProbeMore(vec: seq<Slot>, hand: nat, start: seq<Slot>, h: nat, k: nat, frames: seq<Slot>, d: nat, next: nat)
    requires Probing(vec, hand, start, h, k, frames, d) && hand < |vec| && vec[hand].bit && |frames| <= k
    requires next == if hand == k then 1 else hand + 1
    ensures Probing(vec[hand := vec[hand].(bit := false)], next, start, h, k, frames, d + 1)
    ensures d < k && next < |vec|
  {
    ProbingIs(vec, hand, start, h, k, frames, d);
    ProbingIs(vec[hand := vec[hand].(bit := false)], next, start, h, k, frames, d + 1);
    SweepContinues(vec, hand, frames, h, d, next);
  }

  /** The victim loop. It ends within k + 1 probes, clears the bits it passes, and stops at the
      specified victim; a free frame under the hand is taken at once. */
  method Sweep(start: seq<Slot>, hand0: nat, k: nat, ghost frames: seq<Slot>, ghost h: nat)
      returns (vec: seq<Slot>, hand: nat, ghost probes: nat)
    requires k >= 1 && |frames| <= k && hand0 == h + 1 <= k && hand0 < |start|
    requires if |frames| < k then start[hand0] == EMPTY else Sweeping(start, hand0, frames, h, 0)
    ensures |frames| < k ==> vec == start && hand == hand0
    ensures |frames| == k ==>
      |vec| == |start| && Sweeping(vec, hand, frames, h, Passed(frames, h, 0))
    ensures 1 <= probes <= k + 1
  {
    vec, hand, probes := start, hand0, 1;
    ghost var d := 0;
    ProbingIs(vec, hand, start, h, k, frames, d);
    while vec[hand].bit
      invariant Probing(vec, hand, start, h, k, frames, d) && probes == d + 1 <= k + 1
      invariant 1 <= hand <= k && hand < |vec|
      decreases k - d
    {
      var next := GetInd(hand + 1, k);
      ProbeMore(vec, hand, start, h, k, frames, d, next);
      vec := vec[hand := vec[hand].(bit := false)];
      hand := next;
      d, probes := d + 1, probes + 1;
    }
    ProbingIs(vec, hand, start, h, k, frames, d);
  }

  /** How replacing a frame changes the resident pages. */
  lemma PagesReplaced(frames: seq<Slot>, j: nat, s: Slot)
    requires j < |frames|
    requires forall a, b :: 0 <= a < b < |frames| ==> frames[a].page != frames[b].page
    ensures Pages(frames[j := s]) == Pages(frames) - {frames[j].page} + {s.page}
  {
    var r := frames[j := s];
    forall p | p in Pages(frames) && p != frames[j].page ensures p in Pages(r) {
      var i :| 0 <= i < |frames| && frames[i].page == p;
      assert r[i].page == p;
    }
    assert r[j].page == s.page;
  }

  lemma PagesCleared(frames: seq<Slot>, h: nat, d: nat)
    ensures Pages(Cleared(frames, h, d)) == Pages(frames)
  {
    var r := Cleared(frames, h, d);
    assert forall i :: 0 <= i < |frames| ==> r[i].page == frames[i].page;
    forall p | p in Pages(frames) ensures p in Pages(r) {
      var i :| 0 <= i < |frames| && frames[i].page == p;
      assert r[i].page == p;
    }
  }

  lemma PagesAppended(frames: seq<Slot>, s: Slot)
    ensures Pages(frames + [s]) == Pages(frames) + {s.page}
  {
    var r := frames + [s];
    forall p | p in Pages(frames) ensures p in Pages(r) {
      var i :| 0 <= i < |frames| && frames[i].page == p;
      assert r[i].page == p;
    }
    assert r[|frames|].page == s.page;
  }

  /** What the swept vector and index set become is the specified step. */
  lemma MissIsStep(vec: seq<Slot>, hand: nat, c: Clock, x: int, k: nat)
    requires k >= 1 && x != -1 && Valid(c, k) && !Holds(c.frames, x)
    requires |c.frames| < k ==> Rep(vec, c.frames) && hand == c.hand + 1 < |vec|
    requires |c.frames| == k ==> Sweeping(vec, hand, c.frames, c.hand, Passed(c.frames, c.hand, 0))
    ensures var c' := ClockStep(c, x, k);
            && 1 <= hand <= k && hand < |vec|
            && Rep(vec[hand := Slot(x, true)], c'.frames)
            && c'.hand == (if hand == k then 0 else hand)
            && Pages(c'.frames) == Pages(c.frames) - {vec[hand].page} + {x}
  {
    if |c.frames| == k {
      FullIsStep(vec, hand, c, x, k);
    } else {
      PagesAppended(c.frames, Slot(x, true));
    }
  }

  lemma FullIsStep(vec: seq<Slot>, hand: nat, c: Clock, x: int, k: nat)
    requires k >= 1 && x != -1 && Valid(c, k) && !Holds(c.frames, x) && |c.frames| == k
    requires Sweeping(vec, hand, c.frames, c.hand, Passed(c.frames, c.hand, 0))
    ensures var c' := ClockStep(c, x, k);
            && 1 <= hand <= k && hand < |vec|
            && Rep(vec[hand := Slot(x, true)], c'.frames)
            && c'.hand == (if hand == k then 0 else hand)
            && Pages(c'.frames) == Pages(c.frames) - {vec[hand].page} + {x}
  {
    var d := Passed(c.frames, c.hand, 0);
    var swept := Cleared(c.frames, c.hand, d);
    PagesCleared(c.frames, c.hand, d);
    PagesReplaced(swept, hand - 1, Slot(x, true));
    assert ClockStep(c, x, k).frames == swept[hand - 1 := Slot(x, true)];
  }

  /** The miss branch: find the slot, drop its page if it held one, put the new page in. */
  method Miss(start: seq<Slot>, hand0: nat, resident: set<int>, x: int, k: nat, ghost c: Clock)
      returns (vec: seq<Slot>, hand: nat, resident': set<int>)
    requires k >= 1 && x != -1 && Valid(c, k) && !Holds(c.frames, x) && hand0 == c.hand + 1
    requires Rep(start, c.frames) && resident == Pages(c.frames) && hand0 < |start|
    ensures var c' := ClockStep(c, x, k);
            Rep(vec, c'.frames) && |vec| == |start| && hand == c'.hand + 1 && resident' == Pages(c'.frames)
  {
    vec, hand, resident' := start, hand0, resident;
    if |c.frames| == k {
      SweepStarts(start, hand0, c.frames, c.hand);
    }
    ghost var probes;
    vec, hand, probes := Sweep(start, hand0, k, c.frames, c.hand);
    MissIsStep(vec, hand, c, x, k);
    if vec[hand].page in resident' {
      resident' := resident' - {vec[hand].page};
    }
    vec := vec[hand := Slot(x, true)];
    resident' := resident' + {x};
    hand := GetInd(hand + 1, k);
  }

  /** The slot vector, hand and index set together represent a clock. */
  ghost predicate Represents(vec: seq<Slot>, hand: nat, resident: set<int>, c: Clock) {
    Rep(vec, c.frames) && hand == c.hand + 1 && resident == Pages(c.frames)
  }

  /** The body of the loop of `_clock`. */
  method Serve(start: seq<Slot>, hand0: nat, resident: set<int>, x: int, k: nat, ghost c: Clock)
      returns (vec: seq<Slot>, hand: nat, resident': set<int>, isHit: bool)
    requires k >= 1 && x != -1 && Valid(c, k) && Represents(start, hand0, resident, c)
    requires |c.frames| < k ==> |c.frames| + 1 < |start|
    ensures Represents(vec, hand, resident', ClockStep(c, x, k)) && |vec| == |start|
    ensures isHit <==> Holds(c.frames, x)
  {
    vec, hand, resident', isHit := start, hand0, resident, x in resident;
    if x !in resident {
      vec, hand, resident' := Miss(vec, hand, resident, x, k, c);
    } else {
      var s := Find(vec, x, c.frames);
      PagesReplaced(c.frames, s - 1, c.frames[s - 1].(bit := true));
      vec := vec[s := vec[s].(bit := true)];
    }
  }

  /** `_clock`: its hits are those of the clock told without bits, and no slot index leaves the vector. */
  method RunClock(order: seq<int>, k: nat) returns (hit: nat)
    requires k >= 1 && NoMarker(order)
    ensures hit == TurnHits(order, k, |order|) == ClockHits(order, k, |order|)
  {
    hit := 0;
    var hand := 1;
    var vec := seq(|order| + 1, _ => EMPTY);
    var resident: set<int> := {};
    ghost var c := Clock([], 0);
    for i := 0 to |order|
      invariant |vec| == |order| + 1 && Represents(vec, hand, resident, c)
      invariant c == ClockAt(order, k, i) && hit == ClockHits(order, k, i)
    {
      ClockNext(order, k, i);
      var isHit;
      vec, hand, resident, isHit := Serve(vec, hand, resident, order[i], k, c);
      c := ClockStep(c, order[i], k);
      if isHit {
        hit := hit + 1;
      }
    }
    BitMeansRequested(order, k, |order|);
  }

  lemma ClockNext(order: seq<int>, k: nat, i: nat)
    requires k >= 1 && i < |order| && NoMarker(order)
    ensures Valid(ClockAt(order, k, i), k) && |ClockAt(order, k, i).frames| <= i
    ensures ClockAt(order, k, i + 1) == ClockStep(ClockAt(order, k, i), order[i], k)
    ensures ClockHits(order, k, i + 1)
            == ClockHits(order, k, i) + if Holds(ClockAt(order, k, i).frames, order[i]) then 1 else 0
  {
  }
}
