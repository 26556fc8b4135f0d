/** Demand paging: what any page-replacement policy may do with `k` frames on a request
    string, how many hits it scores, and when a page is requested next. */
module Paging {

  /** One request for page `x`: pages may be dropped at will, but only `x` may be brought in,
      `x` must be resident afterwards, and at most `k` pages fit. */
  ghost predicate DemandStep(c: set<int>, x: int, k: nat, c': set<int>) {
    x in c' && c' <= c + {x} && |c'| <= k
  }

  /** `run[i]` is the resident set just before request `i`. */
  ghost predicate DemandRun(order: seq<int>, k: nat, run: seq<set<int>>) {
    && |run| == |order| + 1
    && run[0] == {}
    && forall i :: 0 <= i < |order| ==> DemandAt(order, k, run, i)
  }

  ghost predicate DemandAt(order: seq<int>, k: nat, run: seq<set<int>>, i: nat)
    requires i < |order| && i + 1 < |run|
  {
    DemandStep(run[i], order[i], k, run[i + 1])
  }

  /** Hits scored by `run` on the first `n` requests. */
  ghost function Hits(order: seq<int>, run: seq<set<int>>, n: nat): nat
    requires n <= |order| && n <= |run|
  {
    if n == 0 then 0
    else Hits(order, run, n - 1) + if order[n - 1] in run[n - 1] then 1 else 0
  }

  /** Some demand-paging schedule with `k` frames scores exactly `hit` hits. */
  ghost predicate Achievable(order: seq<int>, k: nat, hit: nat) {
    exists run :: DemandRun(order, k, run) && Hits(order, run, |order|) == hit
  }

  /** `hit` is the best score any demand-paging schedule with `k` frames can reach. */
  ghost predicate Optimal(order: seq<int>, k: nat, hit: nat) {
    Achievable(order, k, hit) && forall h: nat :: Achievable(order, k, h) ==> h <= hit
  }

  /** The first position at or after `i` that requests `p`, or N + 1 when there is none. */
  function NextUse(order: seq<int>, p: int, i: nat): (u: nat)
    requires i <= |order|
    ensures u == |order| + 1 || (i <= u < |order| && order[u] == p)
    ensures forall j :: i <= j < |order| && j < u ==> order[j] != p
    decreases |order| - i
  {
    if i == |order| then |order| + 1
    else if order[i] == p then i
    else NextUse(order, p, i + 1)
  }

  /** A running score that goes up by one at each hit is the hit count. */
  lemma {:induction false} HitsAreScore(order: seq<int>, run: seq<set<int>>, score: seq<nat>, n: nat)
    requires n <= |order| < |run| && |order| < |score| && score[0] == 0
    requires forall i :: 0 <= i < |order| ==> score[i + 1] == score[i] + if order[i] in run[i] then 1 else 0
    ensures Hits(order, run, n) == score[n]
  {
    if n > 0 {
      HitsAreScore(order, run, score, n - 1);
      assert score[n - 1 + 1] == score[n];
    }
  }

  /** Runs only look at the requests already served, so hits of a prefix do not change when
      the run is extended. */
  lemma {:induction false} HitsPrefix(order: seq<int>, run: seq<set<int>>, more: seq<set<int>>, n: nat)
    requires n <= |order| && n <= |run|
    ensures Hits(order, run + more, n) == Hits(order, run, n)
  {
    if n > 0 {
      HitsPrefix(order, run, more, n - 1);
    }
  }
}
