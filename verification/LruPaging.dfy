/** LRU in its two implementations: the linked list of lab9/main.cpp (`lru`) and the timestamp
    map of lab8/replacement.cpp. Both keep exactly the `k` most recently used distinct pages. */
module LruPaging {
  import opened Lists
  import opened Paging
  import opened Sets

  // ----- recency, defined on the request string alone -----

  /** `j` is the last position below `n` that requests `p`. */
  ghost predicate IsLast(order: seq<int>, n: nat, p: int, j: nat) {
    j < n <= |order| && order[j] == p && forall i :: j < i < n ==> order[i] != p
  }

  lemma {:induction false} HasLast(order: seq<int>, n: nat, p: int)
    requires n <= |order| && p in order[..n]
    ensures exists j: nat :: IsLast(order, n, p, j)
  {
    var m: nat := n - 1;
    if order[m] == p {
      assert IsLast(order, n, p, m);
    } else {
      SeenStep(order, m, p);
      HasLast(order, m, p);
      var j: nat :| IsLast(order, m, p, j);
      assert IsLast(order, n, p, j);
    }
  }

  ghost function LastUse(order: seq<int>, n: nat, p: int): (j: nat)
    requires n <= |order| && p in order[..n]
    ensures IsLast(order, n, p, j)
  {
    HasLast(order, n, p);
    var j: nat :| IsLast(order, n, p, j);
    j
  }

  /** The distinct pages requested since `p` was last used. */
  ghost function After(order: seq<int>, n: nat, p: int): set<int>
    requires n <= |order| && p in order[..n]
  {
    set j | LastUse(order, n, p) < j < n :: order[j]
  }

  /** `p` is one of the `k` most recently used distinct pages of the first `n` requests. */
  ghost predicate Recent(order: seq<int>, n: nat, k: nat, p: int)
    requires n <= |order|
  {
    p in order[..n] && |After(order, n, p)| < k
  }

  ghost function RecentSet(order: seq<int>, n: nat, k: nat): set<int>
    requires n <= |order|
  {
    set p | p in order[..n] && Recent(order, n, k, p)
  }

  /** Requests among the first `n` that hit one of the `k` most recent distinct pages. */
  ghost function RecentHits(order: seq<int>, k: nat, n: nat): nat
    requires n <= |order|
  {
    if n == 0 then 0
    else RecentHits(order, k, n - 1) + if Recent(order, n - 1, k, order[n - 1]) then 1 else 0
  }

  lemma SeenStep(order: seq<int>, n: nat, p: int)
    requires n < |order|
    ensures p in order[..n + 1] <==> p in order[..n] || p == order[n]
  {
    assert order[..n + 1] == order[..n] + [order[n]];
  }

  lemma AfterStep(order: seq<int>, n: nat, p: int)
    requires n < |order| && p in order[..n + 1]
    ensures p == order[n] ==> After(order, n + 1, p) == {}
    ensures p != order[n] ==> p in order[..n] && After(order, n + 1, p) == After(order, n, p) + {order[n]}
  {
    SeenStep(order, n, p);
    if p != order[n] {
      assert LastUse(order, n + 1, p) == LastUse(order, n, p);
    }
  }

  // ----- the linked list -----

  /** Move `x` to the most recent end and keep the `k` most recent. */
  function LruStep(ls: seq<int>, x: int, k: nat): seq<int> {
    LastK(Without(ls, x) + [x], k)
  }

  function LruList(order: seq<int>, k: nat, n: nat): seq<int>
    requires n <= |order|
  {
    if n == 0 then [] else LruStep(LruList(order, k, n - 1), order[n - 1], k)
  }

  /** The elements of `ls` behind position `a`. */
  ghost function Behind(ls: seq<int>, a: nat): set<int>
    requires a < |ls|
  {
    set j | a < j < |ls| :: ls[j]
  }

  /** `ls` lists pages by recency: behind each page stand exactly the pages used since. */
  ghost predicate ByRecency(order: seq<int>, n: nat, ls: seq<int>)
    requires n <= |order|
  {
    && Distinct(ls)
    && (forall a :: 0 <= a < |ls| ==> ls[a] in order[..n])
    && (forall a :: 0 <= a < |ls| ==> After(order, n, ls[a]) == Behind(ls, a))
  }

  /** ... and every page left out has at least `k` more recent ones. */
  ghost predicate IsLru(order: seq<int>, n: nat, k: nat, ls: seq<int>)
    requires n <= |order|
  {
    && ByRecency(order, n, ls)
    && |ls| <= k
    && (forall p :: p in order[..n] && p !in ls ==> |ls| == k && Elems(ls) <= After(order, n, p))
  }

  /** Moving the requested page to the end keeps the list ordered by recency. */
  lemma MoveToEnd(order: seq<int>, n: nat, ls: seq<int>)
    requires n < |order| && ByRecency(order, n, ls)
    ensures ByRecency(order, n + 1, Without(ls, order[n]) + [order[n]])
  {
    var x := order[n];
    var a := IndexOf(ls, x);
    var w := Without(ls, x) + [x];
    WithoutDistinct(ls, x);
    WithoutMembers(ls, x);
    forall b | 0 <= b < |w|
      ensures w[b] in order[..n + 1] && After(order, n + 1, w[b]) == Behind(w, b)
    {
      SeenStep(order, n, w[b]);
      AfterStep(order, n, w[b]);
      if b < |w| - 1 {
        BehindWithout(ls, x, b);
        var c := if b < a then b else b + 1;
        assert w[b] == ls[c] != x;
      }
    }
  }

  /** Where an element of `ls` stands after `x` moved to the end. */
  lemma MovedTo(ls: seq<int>, x: int, j: nat)
    requires j < |ls|
    ensures var a, w := IndexOf(ls, x), Without(ls, x) + [x];
            && (j < a ==> w[j] == ls[j]) && (j > a ==> w[j - 1] == ls[j]) && (j == a ==> w[|w| - 1] == ls[j])
  {
    var a := IndexOf(ls, x);
    if a < |ls| {
      MovedAround(ls, x, a, j, Without(ls, x));
    }
  }

  lemma MovedAround(ls: seq<int>, x: int, a: nat, j: nat, v: seq<int>)
    requires a < |ls| && ls[a] == x && j < |ls| && v == ls[..a] + ls[a + 1..]
    ensures j < a ==> (v + [x])[j] == ls[j]
    ensures j > a ==> (v + [x])[j - 1] == ls[j]
    ensures j == a ==> (v + [x])[|v|] == ls[j]
  {
    if j > a {
      assert v[j - 1] == ls[a + 1..][j - 1 - a];
    }
  }

  /** And where it came from. */
  lemma MovedFrom(ls: seq<int>, x: int, j: nat)
    requires j < |Without(ls, x) + [x]|
    ensures var a, w := IndexOf(ls, x), Without(ls, x) + [x];
            && (j < |w| - 1 && j < a ==> w[j] == ls[j])
            && (j < |w| - 1 && j >= a ==> j + 1 < |ls| && w[j] == ls[j + 1])
            && (j == |w| - 1 ==> w[j] == x)
  {
    var a, w := IndexOf(ls, x), Without(ls, x) + [x];
    if a < |ls| {
      assert w == ls[..a] + ls[a + 1..] + [x];
    } else {
      assert w == ls + [x];
    }
  }

  lemma BehindWithout(ls: seq<int>, x: int, b: nat)
    requires Distinct(ls)
    requires b < |Without(ls, x)|
    ensures var c := if b < IndexOf(ls, x) then b else b + 1;
            c < |ls| && Behind(Without(ls, x) + [x], b) == Behind(ls, c) + {x}
  {
    var a := IndexOf(ls, x);
    var w := Without(ls, x) + [x];
    var c := if b < a then b else b + 1;
    forall p | p in Behind(ls, c) ensures p in Behind(w, b) {
      var j :| c < j < |ls| && ls[j] == p;
      MovedTo(ls, x, j);
    }
    forall p | p in Behind(w, b) ensures p in Behind(ls, c) + {x} {
      var j :| b < j < |w| && w[j] == p;
      MovedFrom(ls, x, j);
    }
    assert w[|w| - 1] == x;
  }

  /** Dropping the front of a recency list keeps it one. */
  lemma DropFront(order: seq<int>, n: nat, ls: seq<int>)
    requires n <= |order| && ByRecency(order, n, ls) && ls != []
    ensures ByRecency(order, n, ls[1..])
    ensures Elems(ls[1..]) == Behind(ls, 0)
  {
    var t := ls[1..];
    forall p | p in Behind(ls, 0) ensures p in Elems(t) {
      var j :| 0 < j < |ls| && ls[j] == p;
      assert t[j - 1] == p;
    }
    forall a | 0 <= a < |t| ensures Behind(t, a) == Behind(ls, a + 1) {
      forall p | p in Behind(ls, a + 1) ensures p in Behind(t, a) {
        var j :| a + 1 < j < |ls| && ls[j] == p;
        assert t[j - 1] == p;
      }
    }
  }

  lemma NothingIsLru(order: seq<int>, k: nat)
    ensures IsLru(order, 0, k, [])
  {
  }

  lemma {:induction false} LruListIsLru(order: seq<int>, k: nat, n: nat)
    requires n <= |order|
    ensures IsLru(order, n, k, LruList(order, k, n))
  {
    if n == 0 {
      NothingIsLru(order, k);
    } else {
      var m: nat := n - 1;
      var ls := LruList(order, k, m);
      LruListIsLru(order, k, m);
      LruStepIsLru(order, k, m, n, ls);
      LruUnfold(order, k, m, n);
    }
  }

  lemma {:induction false} LruUnfold(order: seq<int>, k: nat, m: nat, n: nat)
    requires m < |order| && n == m + 1
    ensures LruList(order, k, n) == LruStep(LruList(order, k, m), order[m], k)
  {
  }

  lemma LruStepIsLru(order: seq<int>, k: nat, n: nat, next: nat, ls: seq<int>)
    requires n < |order| && next == n + 1 && IsLru(order, n, k, ls)
    ensures IsLru(order, next, k, LruStep(ls, order[n], k))
  {
    var x := order[n];
    var w := Without(ls, x) + [x];
    MoveToEnd(order, n, ls);
    WithoutDistinct(ls, x);
    WithoutMembers(ls, x);
    var out := LruStep(ls, x, k);
    if |w| > k {
      DropFront(order, n + 1, w);
      assert out == w[1..];
    }
    forall p | p in order[..n + 1] && p !in out
      ensures |out| == k && Elems(out) <= After(order, n + 1, p)
    {
      SeenStep(order, n, p);
      if p in w {
        assert p == w[0];
      } else {
        AfterStep(order, n, p);
      }
    }
  }

  /** The list holds exactly the `k` most recently used distinct pages. */
  lemma LruListIsRecent(order: seq<int>, k: nat, n: nat)
    requires n <= |order|
    ensures forall p :: p in LruList(order, k, n) <==> Recent(order, n, k, p)
    ensures RecentSet(order, n, k) == Elems(LruList(order, k, n))
    ensures |RecentSet(order, n, k)| <= k
  {
    var ls := LruList(order, k, n);
    LruListIsLru(order, k, n);
    DistinctCard(ls);
    forall p ensures p in ls <==> Recent(order, n, k, p) {
      ListedIsRecent(order, k, n, ls, p);
    }
  }

  lemma ListedIsRecent(order: seq<int>, k: nat, n: nat, ls: seq<int>, p: int)
    requires n <= |order| && IsLru(order, n, k, ls)
    ensures p in ls <==> Recent(order, n, k, p)
  {
    DistinctCard(ls);
    if p in ls {
      var a :| 0 <= a < |ls| && ls[a] == p;
      assert Behind(ls, a) <= Elems(ls) - {p};
      SubsetCard(Behind(ls, a), Elems(ls) - {p});
    } else if p in order[..n] {
      SubsetCard(Elems(ls), After(order, n, p));
    }
  }

  // ----- the stack property -----

  /** Inclusion: whatever is resident with `k` frames is resident with more. */
  lemma Inclusion(order: seq<int>, n: nat, k: nat, more: nat)
    requires n <= |order| && k <= more
    ensures Elems(LruList(order, k, n)) <= Elems(LruList(order, more, n))
  {
    LruListIsRecent(order, k, n);
    LruListIsRecent(order, more, n);
    assert forall p :: Recent(order, n, k, p) ==> Recent(order, n, more, p);
  }

  /** No Belady anomaly: LRU hits never fall as frames are added. */
  lemma {:induction false} HitsMonotone(order: seq<int>, n: nat, k: nat, more: nat)
    requires n <= |order| && k <= more
    ensures RecentHits(order, k, n) <= RecentHits(order, more, n)
  {
    if n > 0 {
      HitsMonotone(order, n - 1, k, more);
    }
  }

  /** LRU is a demand-paging schedule, so MIN is never worse. */
  lemma LruIsAchievable(order: seq<int>, k: nat)
    requires k >= 1
    ensures Achievable(order, k, RecentHits(order, k, |order|))
  {
    var run := LruRun(order, k);
    forall i | 0 <= i < |order| ensures DemandAt(order, k, run, i) {
      LruStepIsDemand(order, k, i);
    }
    assert RecentSet(order, 0, k) == {};
    var score := LruScore(order, k);
    forall i | 0 <= i < |order| ensures score[i + 1] == score[i] + if order[i] in run[i] then 1 else 0 {
      RecentIsMember(order, k, i, order[i]);
    }
    HitsAreScore(order, run, score, |order|);
  }

  lemma LruRun(order: seq<int>, k: nat) returns (run: seq<set<int>>)
    ensures |run| == |order| + 1 && forall i :: 0 <= i <= |order| ==> run[i] == RecentSet(order, i, k)
  {
    run := seq(|order| + 1, n requires 0 <= n <= |order| => RecentSet(order, n, k));
  }

  lemma LruStepIsDemand(order: seq<int>, k: nat, i: nat)
    requires k >= 1 && i < |order|
    ensures DemandStep(RecentSet(order, i, k), order[i], k, RecentSet(order, i + 1, k))
  {
    LruListIsRecent(order, k, i + 1);
    SeenStep(order, i, order[i]);
    AfterStep(order, i, order[i]);
    forall p | p in RecentSet(order, i + 1, k) ensures p in RecentSet(order, i, k) + {order[i]} {
      if p != order[i] {
        StaysRecent(order, k, i, p);
      }
    }
  }

  /** A page recent after a request was recent before it, unless it is the page requested. */
  lemma StaysRecent(order: seq<int>, k: nat, i: nat, p: int)
    requires i < |order| && Recent(order, i + 1, k, p) && p != order[i]
    ensures Recent(order, i, k, p)
  {
    AfterStep(order, i, p);
    SubsetCard(After(order, i, p), After(order, i + 1, p));
  }

  lemma LruScore(order: seq<int>, k: nat) returns (score: seq<nat>)
    ensures |score| == |order| + 1 && forall i :: 0 <= i <= |order| ==> score[i] == RecentHits(order, k, i)
  {
    score := seq(|order| + 1, n requires 0 <= n <= |order| => RecentHits(order, k, n));
  }

  lemma RecentIsMember(order: seq<int>, k: nat, n: nat, p: int)
    requires n <= |order|
    ensures p in RecentSet(order, n, k) <==> Recent(order, n, k, p)
  {
  }

  // ----- the programs -----

  /** The body of the loop of `lru`: the list in recency order and the index of resident pages. */
  method LruServe(ls: seq<int>, pos: set<int>, x: int, k: nat) returns (ls': seq<int>, pos': set<int>, isHit: bool)
    requires k >= 1 && Distinct(ls) && |ls| <= k && pos == Elems(ls)
    ensures ls' == LruStep(ls, x, k) && pos' == Elems(ls')
    ensures isHit <==> x in ls
  {
    DistinctCard(ls);
    ls', pos', isHit := ls, pos, x in pos;
    if x !in pos {
      if |pos| == k {
        pos' := pos' - {ls'[0]};
        ls' := ls'[1..];
      }
      ls' := ls' + [x];
      pos' := pos' + {x};
      StepOfNew(ls, x, k);
    } else {
      ls' := Erase(ls', x);
      ls' := ls' + [x];
      ElemsOfStep(ls, x, k);
    }
  }

  lemma StepOfNew(ls: seq<int>, x: int, k: nat)
    requires k >= 1 && Distinct(ls) && |ls| <= k && x !in ls
    ensures LruStep(ls, x, k) == (if |ls| == k then ls[1..] else ls) + [x]
    ensures Elems(LruStep(ls, x, k)) == (if |ls| == k then Elems(ls) - {ls[0]} else Elems(ls)) + {x}
  {
    assert Without(ls, x) == ls;
    ElemsOfStep(ls, x, k);
  }

  /** `lru` of lab9. */
  method Lru(order: seq<int>, k: nat) returns (hit: nat)
    requires k >= 1
    ensures hit == RecentHits(order, k, |order|)
  {
    hit := 0;
    var ls: seq<int> := [];
    var pos: set<int> := {};
    for i := 0 to |order|
      invariant ls == LruList(order, k, i) && pos == Elems(ls)
      invariant hit == RecentHits(order, k, i)
    {
      LruNext(order, k, i);
      var isHit;
      ls, pos, isHit := LruServe(ls, pos, order[i], k);
      if isHit {
        hit := hit + 1;
      }
    }
  }

  /** What one request does to the list and to the score. */
  lemma LruNext(order: seq<int>, k: nat, i: nat)
    requires i < |order|
    ensures var ls := LruList(order, k, i);
            && Distinct(ls) && |ls| <= k && LruList(order, k, i + 1) == LruStep(ls, order[i], k)
            && RecentHits(order, k, i + 1) == RecentHits(order, k, i) + if order[i] in ls then 1 else 0
  {
    LruListIsLru(order, k, i);
    LruListIsRecent(order, k, i);
  }

  lemma ElemsOfStep(ls: seq<int>, x: int, k: nat)
    requires Distinct(ls) && |ls| <= k
    ensures var w := Without(ls, x) + [x];
            && |w| <= k + 1
            && Elems(w) == Elems(ls) + {x}
            && Elems(LruStep(ls, x, k)) == if |w| > k then Elems(w) - {w[0]} else Elems(w)
  {
    WithoutDistinct(ls, x);
    WithoutMembers(ls, x);
    var w := Without(ls, x) + [x];
    if |w| > k {
      var t := w[1..];
      forall p | p in Elems(w) && p != w[0] ensures p in Elems(t) {
        var j :| 0 <= j < |w| && w[j] == p;
        assert t[j - 1] == p;
      }
    }
  }

  /** In a recency list the front page carries the strictly smallest timestamp. */
  lemma FrontIsOldest(order: seq<int>, n: nat, w: seq<int>, q: int)
    requires n <= |order| && ByRecency(order, n, w) && q in w && q != w[0]
    ensures LastUse(order, n, w[0]) < LastUse(order, n, q)
  {
    var j :| 0 <= j < |w| && w[j] == q;
    assert q in Behind(w, 0);
  }

  /** Scan the timestamp map, in any order, for the oldest entry. */
  method FindOldest(stamps: map<int, int>) returns (victim: int)
    requires stamps.Keys != {}
    ensures victim in stamps && forall p :: p in stamps ==> stamps[victim] <= stamps[p]
  {
    var todo := stamps.Keys;
    victim := Pick(todo);
    while todo != {}
      invariant todo <= stamps.Keys && victim in stamps
      invariant forall p :: p in stamps.Keys - todo ==> stamps[victim] <= stamps[p]
      decreases |todo|
    {
      var p := Pick(todo);
      if stamps[p] < stamps[victim] {
        victim := p;
      }
      todo := todo - {p};
    }
  }

  ghost predicate StampsOk(order: seq<int>, n: nat, ls: seq<int>, stamps: map<int, int>)
    requires n <= |order|
  {
    && stamps.Keys == Elems(ls)
    && forall p :: p in stamps ==> p in order[..n] && stamps[p] == LastUse(order, n, p)
  }

  lemma StampsAdvance(order: seq<int>, n: nat, stamps: map<int, int>)
    requires n < |order|
    requires forall p :: p in stamps ==> p in order[..n] && stamps[p] == LastUse(order, n, p)
    ensures var next := stamps[order[n] := n];
            forall p :: p in next ==> p in order[..n + 1] && next[p] == LastUse(order, n + 1, p)
  {
    var next := stamps[order[n] := n];
    forall p | p in next ensures p in order[..n + 1] && next[p] == LastUse(order, n + 1, p) {
      SeenStep(order, n, p);
    }
  }

  /** `front` is the one page with the smallest timestamp. */
  ghost predicate Oldest(stamps: map<int, int>, front: int) {
    front in stamps && forall q :: q in stamps && q != front ==> stamps[front] < stamps[q]
  }

  /** The body of the timestamp loop: stamp the page and, on a miss that overflows, erase the oldest. */
  method StampServe(stamps: map<int, int>, x: int, i: int, k: nat, ghost front: int)
      returns (stamps': map<int, int>, isHit: bool)
    requires Oldest(stamps[x := i], front)
    ensures isHit <==> x in stamps
    ensures stamps' == if x !in stamps && |stamps[x := i]| > k then stamps[x := i] - {front} else stamps[x := i]
  {
    isHit := x in stamps;
    stamps' := stamps[x := i];
    if !isHit {
      if |stamps'| > k {
        var victim := FindOldest(stamps');
        stamps' := stamps' - {victim};
      }
    }
  }

  lemma StepCards(order: seq<int>, k: nat, i: nat, ls: seq<int>)
    requires i < |order| && IsLru(order, i, k, ls)
    ensures var x := order[i];
            var w := Without(ls, x) + [x];
            && |w| == |Elems(w)| && Elems(w) == Elems(ls) + {x}
            && Elems(LruStep(ls, x, k)) == (if |w| > k then Elems(w) - {w[0]} else Elems(w))
            && (x in ls ==> |w| <= k)
  {
    var x := order[i];
    ElemsOfStep(ls, x, k);
    WithoutDistinct(ls, x);
    DistinctCard(Without(ls, x) + [x]);
  }

  /** The page with the smallest timestamp is the front of the recency list. */
  lemma FrontIsOldestStamp(order: seq<int>, n: nat, w: seq<int>, stamps: map<int, int>)
    requires n <= |order| && w != [] && ByRecency(order, n, w) && StampsOk(order, n, w, stamps)
    ensures Oldest(stamps, w[0])
  {
    assert w[0] in w;
    forall q | q in stamps && q != w[0] ensures stamps[w[0]] < stamps[q] {
      FrontIsOldest(order, n, w, q);
    }
  }

  lemma StampedIsOk(order: seq<int>, n: nat, ls: seq<int>, stamps: map<int, int>)
    requires n < |order| && StampsOk(order, n, ls, stamps)
    ensures StampsOk(order, n + 1, Without(ls, order[n]) + [order[n]], stamps[order[n] := n])
  {
    StampsAdvance(order, n, stamps);
    WithoutMembers(ls, order[n]);
  }

  /** The timestamp LRU of lab8 counts the same hits as the list LRU on every input. */
  method LruByStamp(order: seq<int>, k: nat) returns (hit: nat)
    ensures hit == RecentHits(order, k, |order|)
  {
    hit := 0;
    var stamps: map<int, int> := map[];
    for i := 0 to |order|
      invariant StampsOk(order, i, LruList(order, k, i), stamps)
      invariant hit == RecentHits(order, k, i)
    {
      ghost var front := StampFront(order, k, i, stamps);
      var isHit;
      stamps, isHit := StampServe(stamps, order[i], i, k, front);
      if isHit {
        hit := hit + 1;
      }
    }
  }

  /** One timestamp step, seen from the list: the erased page is the list's front. */
  lemma StampFront(order: seq<int>, k: nat, i: nat, stamps: map<int, int>) returns (front: int)
    requires i < |order| && StampsOk(order, i, LruList(order, k, i), stamps)
    ensures order[i] in stamps <==> Recent(order, i, k, order[i])
    ensures var next := stamps[order[i] := i];
            && Oldest(next, front)
            && StampsOk(order, i + 1, LruList(order, k, i + 1),
                        if order[i] !in stamps && |next| > k then next - {front} else next)
  {
    var ls, x := LruList(order, k, i), order[i];
    var w := Without(ls, x) + [x];
    front := w[0];
    LruListIsRecent(order, k, i);
    StampedIsOk(order, i, ls, stamps);
    assert Oldest(stamps[x := i], front) by {
      LruListIsLru(order, k, i);
      MoveToEnd(order, i, ls);
      FrontIsOldestStamp(order, i + 1, w, stamps[x := i]);
    }
    assert |w| == |Elems(w)| && (x in ls ==> |w| <= k)
           && Elems(LruStep(ls, x, k)) == (if |w| > k then Elems(w) - {w[0]} else Elems(w)) by {
      LruListIsLru(order, k, i);
      StepCards(order, k, i, ls);
    }
    StampsShrink(order, i + 1, k, w, LruStep(ls, x, k), stamps[x := i]);
  }

  lemma StampsShrink(order: seq<int>, n: nat, k: nat, w: seq<int>, out: seq<int>, stamps: map<int, int>)
    requires n <= |order| && StampsOk(order, n, w, stamps) && |w| == |Elems(w)|
    requires w != [] && Elems(out) == if |w| > k then Elems(w) - {w[0]} else Elems(w)
    ensures |stamps| == |w|
    ensures StampsOk(order, n, out, if |w| > k then stamps - {w[0]} else stamps)
  {
    assert |stamps| == |stamps.Keys|;
  }
}
