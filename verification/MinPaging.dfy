/** MIN (lab9/main.cpp, `min`): evict the resident page whose next use lies farthest ahead,
    with next uses read off lazily pruned position lists; proved optimal over all schedules. */
module MinPaging {
  import opened Paging
  import opened Sets

  // ----- the exchange-free optimality argument -----

  /** One step of a farthest-next-use policy; ties may be broken in any way. */
  ghost predicate FarthestStep(order: seq<int>, k: nat, i: nat, c: set<int>, c': set<int>)
    requires i < |order|
  {
    var x := order[i];
    if x in c then c' == c
    else if |c| < k then c' == c + {x}
    else exists v :: v in c && Farthest(order, i, c, v) && c' == c - {v} + {x}
  }

  ghost predicate Farthest(order: seq<int>, i: nat, c: set<int>, v: int)
    requires i < |order|
  {
    forall p :: p in c ==> NextUse(order, p, i) <= NextUse(order, v, i)
  }

  ghost predicate FarthestRun(order: seq<int>, k: nat, run: seq<set<int>>) {
    FarthestTo(order, k, run, |order|)
  }

  /** The first `n` steps of a run are farthest-next-use steps. */
  ghost predicate FarthestTo(order: seq<int>, k: nat, run: seq<set<int>>, n: nat)
    requires n <= |order|
  {
    && |run| == n + 1 && run[0] == {}
    && forall i :: 0 <= i < n ==> FarthestAt(order, k, run, i)
  }

  ghost predicate FarthestAt(order: seq<int>, k: nat, run: seq<set<int>>, i: nat)
    requires i < |order| && i + 1 < |run|
  {
    |run[i]| <= k && FarthestStep(order, k, i, run[i], run[i + 1])
  }

  /** The pages of `c` that will be requested again no later than `t`. */
  ghost function Soon(order: seq<int>, c: set<int>, i: nat, t: int): set<int>
    requires i <= |order|
  {
    set p | p in c && NextUse(order, p, i) <= t
  }

  /** How serving request `i` changes the number of pages needed by time `t`. */
  lemma SoonAfter(order: seq<int>, c: set<int>, i: nat, t: int)
    requires i < |order| && i <= t
    ensures var x := order[i];
            var rest := |Soon(order, c - {x}, i, t)|;
            && |Soon(order, c, i, t)| == rest + (if x in c then 1 else 0)
            && |Soon(order, c, i + 1, t)| == rest + (if x in c && NextUse(order, x, i + 1) <= t then 1 else 0)
  {
    var x := order[i];
    var rest := Soon(order, c - {x}, i, t);
    assert Soon(order, c, i, t) == if x in c then rest + {x} else rest;
    assert Soon(order, c, i + 1, t) ==
           if x in c && NextUse(order, x, i + 1) <= t then rest + {x} else rest;
  }

  /** What a competing step can do to the count: only the requested page can raise it. */
  lemma CompetitorStep(order: seq<int>, k: nat, c: set<int>, c': set<int>, i: nat, t: int)
    requires i < |order| && i <= t && DemandStep(c, order[i], k, c')
    ensures var x := order[i];
            var back := if NextUse(order, x, i + 1) <= t then 1 else 0;
            && |Soon(order, c', i + 1, t)| <= |Soon(order, c, i, t)| - (if x in c then 1 else 0) + back
            && |Soon(order, c', i + 1, t)| <= k - 1 + back
  {
    var x := order[i];
    SoonAfter(order, c, i, t);
    SoonAfter(order, c', i, t);
    SubsetCard(Soon(order, c' - {x}, i, t), Soon(order, c - {x}, i, t));
    SubsetCard(Soon(order, c' - {x}, i, t), c' - {x});
  }

  /** What MIN's step does to the count: it keeps it as high as a miss allows, unless every
      resident page was already counted. */
  lemma FarthestKeeps(order: seq<int>, k: nat, c: set<int>, c': set<int>, i: nat, t: int)
    requires i < |order| && i <= t && |c| <= k && FarthestStep(order, k, i, c, c')
    ensures var x := order[i];
            var back := if NextUse(order, x, i + 1) <= t then 1 else 0;
            || |Soon(order, c', i + 1, t)| == |Soon(order, c, i, t)| - (if x in c then 1 else 0) + back
            || (x !in c && |Soon(order, c', i + 1, t)| == k - 1 + back)
  {
    var x := order[i];
    SoonAfter(order, c, i, t);
    SoonAfter(order, c', i, t);
    if x in c {
    } else if |c| < k {
      assert c' - {x} == c - {x};
    } else {
      var v :| v in c && Farthest(order, i, c, v) && c' == c - {v} + {x};
      SwapOut(c, c', v, x);
      SoonWithout(order, c, i, t, v);
    }
  }

  lemma SwapOut<T>(c: set<T>, c': set<T>, v: T, x: T)
    requires v in c && x !in c && c' == c - {v} + {x}
    ensures c' - {x} == c - {v} && c - {x} == c
  {
  }

  /** Without the page used farthest in the future, either all pages count or the count is the same. */
  lemma SoonWithout(order: seq<int>, c: set<int>, i: nat, t: int, v: int)
    requires i < |order| && v in c && Farthest(order, i, c, v)
    ensures Soon(order, c - {v}, i, t) == if NextUse(order, v, i) <= t then c - {v} else Soon(order, c, i, t)
  {
  }

  /** The potential argument: whatever another schedule has in store for the near future, MIN's
      lead in hits covers it. */
  lemma {:induction false} LeadCoversDemand(order: seq<int>, k: nat, mine: seq<set<int>>, other: seq<set<int>>,
                                            n: nat, t: int)
    requires FarthestRun(order, k, mine) && DemandRun(order, k, other) && n <= |order|
    ensures |Soon(order, other[n], n, t)| - |Soon(order, mine[n], n, t)| <=
            Hits(order, mine, n) - Hits(order, other, n)
    ensures Hits(order, other, n) <= Hits(order, mine, n)
    decreases n
  {
    if n == 0 {
    } else {
      var i := n - 1;
      LeadCoversDemand(order, k, mine, other, i, i);
      OnlyNow(order, other[i], i);
      OnlyNow(order, mine[i], i);
      if t < n {
        NoneBefore(order, other[n], n, t);
      } else {
        LeadCoversDemand(order, k, mine, other, i, t);
        assert DemandAt(order, k, other, i) && FarthestAt(order, k, mine, i);
        CompetitorStep(order, k, other[i], other[n], i, t);
        FarthestKeeps(order, k, mine[i], mine[n], i, t);
      }
    }
  }

  /** The only page needed "by now" is the one requested now. */
  lemma OnlyNow(order: seq<int>, c: set<int>, i: nat)
    requires i < |order|
    ensures |Soon(order, c, i, i)| == if order[i] in c then 1 else 0
  {
    assert Soon(order, c, i, i) == if order[i] in c then {order[i]} else {};
  }

  lemma NoneBefore(order: seq<int>, c: set<int>, i: nat, t: int)
    requires i <= |order| && t < i
    ensures |Soon(order, c, i, t)| == 0
  {
    assert Soon(order, c, i, t) == {};
  }

  lemma {:induction false} FarthestIsDemand(order: seq<int>, k: nat, run: seq<set<int>>)
    requires k >= 1 && FarthestRun(order, k, run)
    ensures DemandRun(order, k, run)
  {
    forall i | 0 <= i < |order| ensures DemandAt(order, k, run, i) {
      assert FarthestAt(order, k, run, i);
    }
  }

  /** Belady's theorem: a farthest-next-use run scores the best hit count possible. */
  lemma FarthestIsOptimal(order: seq<int>, k: nat, run: seq<set<int>>)
    requires k >= 1 && FarthestRun(order, k, run)
    ensures Optimal(order, k, Hits(order, run, |order|))
  {
    FarthestIsDemand(order, k, run);
    forall h: nat | Achievable(order, k, h) ensures h <= Hits(order, run, |order|) {
      var other :| DemandRun(order, k, other) && Hits(order, other, |order|) == h;
      LeadCoversDemand(order, k, run, other, |order|, 0);
    }
  }

  // ----- the program: position lists and their lazy pruning -----

  /** A position list of page `p` is good at time `i`: ascending, made of positions of `p`
      followed by N + 1 marks, and no position at or after `i` is missing. */
  ghost predicate GoodList(order: seq<int>, p: int, ps: seq<int>, i: nat) {
    && |ps| > 0
    && ps[|ps| - 1] == |order| + 1
    && (forall a :: 0 <= a < |ps| ==> ps[a] == |order| + 1 || (0 <= ps[a] < |order| && order[ps[a]] == p))
    && (forall a, b :: 0 <= a < b < |ps| ==> ps[a] <= ps[b])
    && (forall j :: i <= j < |order| && order[j] == p ==> j in ps)
  }

  ghost predicate GoodLists(order: seq<int>, mls: map<int, seq<int>>, i: nat) {
    forall p :: p in order ==> p in mls && GoodList(order, p, mls[p], i)
  }

  lemma StillGood(order: seq<int>, mls: map<int, seq<int>>, i: nat, next: nat)
    requires GoodLists(order, mls, i) && i <= next
    ensures GoodLists(order, mls, next)
  {
  }

  /** The first entry of a good list that is not in the past is the page's true next use. */
  lemma HeadIsNextUse(order: seq<int>, p: int, ps: seq<int>, i: nat)
    requires i <= |order| && GoodList(order, p, ps, i) && ps[0] >= i
    ensures ps[0] == NextUse(order, p, i)
  {
    var u := NextUse(order, p, i);
    if u < |order| {
      assert u in ps;
    }
  }

  /** A list under construction: all positions of `p` below `i`, in ascending order. */
  ghost predicate OpenList(order: seq<int>, p: int, ps: seq<int>, i: nat)
    requires i <= |order|
  {
    && (forall a :: 0 <= a < |ps| ==> 0 <= ps[a] < i && order[ps[a]] == p)
    && (forall a, b :: 0 <= a < b < |ps| ==> ps[a] <= ps[b])
    && (forall j :: 0 <= j < i && order[j] == p ==> j in ps)
  }

  lemma OpenListGrows(order: seq<int>, p: int, ps: seq<int>, i: nat)
    requires i < |order| && OpenList(order, p, ps, i)
    ensures order[i] == p ==> OpenList(order, p, ps + [i], i + 1)
    ensures order[i] != p ==> OpenList(order, p, ps, i + 1)
  {
    assert (ps + [i])[|ps|] == i;
    assert forall j :: j in ps ==> j in ps + [i];
  }

  lemma NothingYet(order: seq<int>, p: int, i: nat)
    requires i <= |order| && p !in order[..i]
    ensures OpenList(order, p, [], i)
  {
    assert forall j :: 0 <= j < i ==> order[..i][j] == order[j];
  }

  ghost predicate OpenLists(order: seq<int>, mls: map<int, seq<int>>, i: nat)
    requires i <= |order|
  {
    && (forall p :: p in order[..i] ==> p in mls)
    && (forall p :: p in mls ==> OpenList(order, p, mls[p], i))
  }

  lemma OpenListsGrow(order: seq<int>, mls: map<int, seq<int>>, i: nat, sofar: seq<int>)
    requires i < |order| && OpenLists(order, mls, i)
    requires sofar == if order[i] in mls then mls[order[i]] else []
    ensures OpenLists(order, mls[order[i] := sofar + [i]], i + 1)
  {
    var x := order[i];
    if x !in mls {
      NothingYet(order, x, i);
    }
    var more := mls[x := sofar + [i]];
    forall p | p in more ensures OpenList(order, p, more[p], i + 1) {
      OpenListGrows(order, p, if p == x then sofar else mls[p], i);
    }
    assert order[..i + 1] == order[..i] + [x];
  }

  lemma ListCloses(order: seq<int>, p: int, ps: seq<int>)
    requires OpenList(order, p, ps, |order|) || GoodList(order, p, ps, 0)
    ensures GoodList(order, p, ps + [|order| + 1], 0)
  {
    assert forall j :: j in ps ==> j in ps + [|order| + 1];
  }

  /** First loop of `min`: record every position of every page. */
  method RecordPositions(order: seq<int>) returns (mls: map<int, seq<int>>)
    ensures forall p :: p in order ==> p in mls && OpenList(order, p, mls[p], |order|)
  {
    mls := map[];
    for i := 0 to |order|
      invariant OpenLists(order, mls, i)
    {
      var x := order[i];
      var sofar := if x in mls then mls[x] else [];
      OpenListsGrow(order, mls, i, sofar);
      mls := mls[x := sofar + [i]];
    }
    assert order[..|order|] == order;
  }

  /** Second loop of `min`: append N + 1 once per request, so at least once per page. */
  method BuildLists(order: seq<int>) returns (mls: map<int, seq<int>>)
    ensures GoodLists(order, mls, 0)
  {
    mls := RecordPositions(order);
    for i := 0 to |order|
      invariant forall p :: p in order ==> p in mls
      invariant forall p :: p in order && p !in order[..i] ==> OpenList(order, p, mls[p], |order|)
      invariant forall p :: p in order && p in order[..i] ==> GoodList(order, p, mls[p], 0)
    {
      var p := order[i];
      ListCloses(order, p, mls[p]);
      mls := mls[p := mls[p] + [|order| + 1]];
      assert order[..i + 1] == order[..i] + [p];
    }
    assert order[..|order|] == order;
  }

  /** Drop past positions from the front of one page's list, as the victim search does. */
  method Prune(order: seq<int>, p: int, was: seq<int>, i: nat) returns (ps: seq<int>)
    requires i < |order| && GoodList(order, p, was, i)
    ensures GoodList(order, p, ps, i) && ps[0] == NextUse(order, p, i)
  {
    ps := was;
    while ps[0] < i
      invariant GoodList(order, p, ps, i)
      decreases |ps|
    {
      assert forall j :: j in ps && j != ps[0] ==> j in ps[1..];
      ps := ps[1..];
    }
    HeadIsNextUse(order, p, ps, i);
  }

  /** Victim search over the resident pages in whatever order the hash map yields them. */
  method FindVictim(order: seq<int>, resident: set<int>, lists: map<int, seq<int>>, i: nat)
      returns (victim: int, mls: map<int, seq<int>>)
    requires i < |order| && resident != {} && (forall p :: p in resident ==> p in order)
    requires GoodLists(order, lists, i)
    ensures victim in resident && Farthest(order, i, resident, victim)
    ensures GoodLists(order, mls, i)
  {
    mls := lists;
    var maxPos, maxNum := -1, -1;
    var todo := resident;
    while todo != {}
      invariant todo <= resident
      invariant GoodLists(order, mls, i)
      invariant todo == resident ==> maxNum == -1
      invariant todo != resident ==> maxPos in resident - todo && maxNum == NextUse(order, maxPos, i)
      invariant forall p :: p in resident - todo ==> NextUse(order, p, i) <= maxNum
      decreases |todo|
    {
      var p := Pick(todo);
      todo := todo - {p};
      var ps := Prune(order, p, mls[p], i);
      mls := mls[p := ps];
      if ps[0] > maxNum {
        maxPos, maxNum := p, ps[0];
      }
    }
    victim := maxPos;
  }

  /** The body of the main loop of `min`: serve request `i`. */
  method Serve(order: seq<int>, k: nat, i: nat, resident: set<int>, lists: map<int, seq<int>>)
      returns (resident': set<int>, mls: map<int, seq<int>>, isHit: bool)
    requires k >= 1 && i < |order| && |resident| <= k && (forall p :: p in resident ==> p in order)
    requires GoodLists(order, lists, i)
    ensures FarthestStep(order, k, i, resident, resident') && |resident'| <= k
    ensures forall p :: p in resident' ==> p in order
    ensures GoodLists(order, mls, i)
    ensures isHit <==> order[i] in resident
  {
    mls, resident', isHit := lists, resident, order[i] in resident;
    if order[i] !in resident {
      if |resident| == k {
        var victim;
        victim, mls := FindVictim(order, resident, mls, i);
        resident' := resident' - {victim};
      }
      resident' := resident' + {order[i]};
    }
  }

  lemma FarthestExtends(order: seq<int>, k: nat, run: seq<set<int>>, n: nat, c: set<int>, next: nat,
                        more: seq<set<int>>)
    requires n < |order| && FarthestTo(order, k, run, n) && |run[n]| <= k && FarthestStep(order, k, n, run[n], c)
    requires next == n + 1 && more == run + [c]
    ensures FarthestTo(order, k, more, next)
    ensures Hits(order, more, next) == Hits(order, run, n) + if order[n] in run[n] then 1 else 0
  {
    HitsPrefix(order, run, [c], n);
    forall j | 0 <= j < n + 1 ensures FarthestAt(order, k, more, j) {
      assert j < n ==> FarthestAt(order, k, run, j);
      assert more[j] == run[j] && (j < n ==> more[j + 1] == run[j + 1]);
    }
  }

  /** `min`: its hit count is the best any demand-paging schedule can reach. */
  method Min(order: seq<int>, k: nat) returns (hit: nat)
    requires k >= 1
    ensures Optimal(order, k, hit)
  {
    hit := 0;
    var mls := BuildLists(order);
    var resident: set<int> := {};
    ghost var run: seq<set<int>> := [{}];
    for i := 0 to |order|
      invariant |run| == i + 1 && run[i] == resident && |resident| <= k
      invariant forall p :: p in resident ==> p in order
      invariant GoodLists(order, mls, i)
      invariant FarthestTo(order, k, run, i) && hit == Hits(order, run, i)
    {
      var isHit;
      resident, mls, isHit := Serve(order, k, i, resident, mls);
      if isHit {
        hit := hit + 1;
      }
      StillGood(order, mls, i, i + 1);
      FarthestExtends(order, k, run, i, resident, i + 1, run + [resident]);
      run := run + [resident];
    }
    FarthestIsOptimal(order, k, run);
  }
}
