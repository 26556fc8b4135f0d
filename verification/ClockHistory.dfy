/** CLOCK without reference bits (lab9/main.cpp, `_clock`): what the hand does, told by the request
    string and by when the hand last left each frame. */
module ClockHistory {

  function Wrap(i: nat, k: nat): nat {
    if i >= k then i - k else i
  }

  /** How far ahead of the hand a frame lies on the ring. */
  function Ahead(hand: nat, j: nat, k: nat): int {
    if j >= hand then j - hand else j - hand + k
  }

  /** The pages on the ring; `left[j]` requests had been served before the one for which the hand last
      left frame `j`. */
  datatype Ring = Ring(pages: seq<int>, left: seq<nat>, hand: nat)

  predicate Fine(r: Ring, k: nat) {
    |r.left| == |r.pages| <= k && r.hand < k
  }

  /** `p` is among requests `a` up to `n`. */
  ghost predicate Since(order: seq<int>, a: nat, n: nat, p: int)
    requires n <= |order|
  {
    exists t :: a <= t < n && order[t] == p
  }

  /** The page of frame `j` has been requested since the hand left the frame. */
  ghost predicate Wanted(order: seq<int>, n: nat, r: Ring, j: nat)
    requires n <= |order| && j < |r.pages| && j < |r.left|
  {
    Since(order, r.left[j], n, r.pages[j])
  }

  /** The frame at distance `i` from the hand. */
  function Place(r: Ring, i: nat): nat {
    Wrap(r.hand + i, |r.pages|)
  }

  /** How many frames the hand passes, from distance `e` on: those wanted before the first that is not;
      all of them if there is none. */
  ghost function Turn(order: seq<int>, n: nat, r: Ring, e: nat): (d: nat)
    requires n <= |order| && |r.left| == |r.pages| && r.hand < |r.pages| && e <= |r.pages|
    ensures e <= d <= |r.pages|
    ensures forall i :: e <= i < d ==> Wanted(order, n, r, Place(r, i))
    ensures d < |r.pages| ==> !Wanted(order, n, r, Place(r, d))
    decreases |r.pages| - e
  {
    if e == |r.pages| || !Wanted(order, n, r, Place(r, e)) then e
    else Turn(order, n, r, e + 1)
  }

  /** Request `n`: a hit changes nothing; a miss takes the free frame under the hand or the first frame
      from the hand whose page is not wanted, and the hand leaves all frames up to it. */
  ghost function Served(order: seq<int>, n: nat, r: Ring, k: nat): (s: Ring)
    requires n < |order| && k >= 1 && Fine(r, k)
    ensures Fine(s, k)
  {
    var x := order[n];
    if x in r.pages then r
    else if |r.pages| < k then Ring(r.pages + [x], r.left + [n], Wrap(r.hand + 1, k))
    else
      var d := Turn(order, n, r, 0);
      var victim := Wrap(r.hand + d, k);
      Ring(r.pages[victim := x],
           seq(k, j requires 0 <= j < k => if Ahead(r.hand, j, k) <= d then n else r.left[j]),
           Wrap(victim + 1, k))
  }

  ghost function RingAt(order: seq<int>, k: nat, n: nat): (r: Ring)
    requires k >= 1 && n <= |order|
    ensures Fine(r, k) && forall j :: 0 <= j < |r.left| ==> r.left[j] <= n
  {
    if n == 0 then Ring([], [], 0) else Served(order, n - 1, RingAt(order, k, n - 1), k)
  }

  /** Requests whose page is on the ring. */
  ghost function TurnHits(order: seq<int>, k: nat, n: nat): nat
    requires k >= 1 && n <= |order|
  {
    if n == 0 then 0
    else TurnHits(order, k, n - 1) + if order[n - 1] in RingAt(order, k, n - 1).pages then 1 else 0
  }

  lemma RingNext(order: seq<int>, k: nat, m: nat, n: nat)
    requires k >= 1 && m < |order| && n == m + 1
    ensures RingAt(order, k, n) == Served(order, m, RingAt(order, k, m), k)
    ensures TurnHits(order, k, n)
            == TurnHits(order, k, m) + if order[m] in RingAt(order, k, m).pages then 1 else 0
  {
  }
}
