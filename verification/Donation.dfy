/** Priority donation (pintos/src/threads/synch.c and thread.c): the walk along the waits-for chain
    in `lock_acquire`, and what every acquire and release keeps. */
module Donation {
  import opened Guard

  class Thread {
    var originalPri: int
    var priority: int
    var waitingLock: Lock?
    var holding: seq<Lock>

    constructor (pri: int)
      ensures priority == originalPri == pri && waitingLock == null && holding == []
    {
      originalPri, priority, waitingLock, holding := pri, pri, null, [];
    }
  }

  class Lock {
    var holder: Thread?
    var maxPri: int

    constructor ()
      ensures holder == null
    {
      holder, maxPri := null, 0;
    }
  }

  // ----- ordered lists -----

  ghost predicate LocksInOrder(ls: seq<Lock>)
    reads ls
  {
    forall i, j :: 0 <= i < j < |ls| ==> ls[i].maxPri >= ls[j].maxPri
  }

  /** `list_insert_ordered` with `lock_cmp_pri`: before the first lock of lower priority. */
  method InsertLock(ls: seq<Lock>, l: Lock) returns (r: seq<Lock>, ghost k: nat)
    ensures k <= |ls| && r == ls[..k] + [l] + ls[k..] && multiset(r) == multiset(ls) + multiset{l}
    ensures forall i :: 0 <= i < k ==> ls[i].maxPri >= l.maxPri
    ensures k < |ls| ==> l.maxPri > ls[k].maxPri
  {
    var i := 0;
    while i < |ls| && !(l.maxPri > ls[i].maxPri)
      invariant 0 <= i <= |ls|
      invariant forall j :: 0 <= j < i ==> ls[j].maxPri >= l.maxPri
    {
      i := i + 1;
    }
    k := i;
    r := ls[..i] + [l] + ls[i..];
    PutIn(ls, i, l);
  }

  /** `list_sort` with `lock_cmp_pri`. */
  method SortLocks(ls: seq<Lock>) returns (r: seq<Lock>)
    ensures LocksInOrder(r) && multiset(r) == multiset(ls)
  {
    r := [];
    for i := 0 to |ls|
      invariant LocksInOrder(r) && multiset(r) == multiset(ls[..i])
    {
      ghost var k;
      r, k := InsertLock(r, ls[i]);
      assert ls[..i + 1] == ls[..i] + [ls[i]];
    }
    assert ls[..|ls|] == ls;
  }

  lemma SameMembers<T>(a: seq<T>, b: seq<T>)
    requires multiset(a) == multiset(b)
    ensures forall x :: x in a <==> x in b
    ensures |a| == |b|
  {
    forall x ensures x in a <==> x in b {
      assert x in a <==> x in multiset(a);
    }
    assert |multiset(a)| == |multiset(b)|;
  }

  ghost predicate ThreadsInOrder(ts: seq<Thread>)
    reads ts
  {
    forall i, j :: 0 <= i < j < |ts| ==> ts[i].priority >= ts[j].priority
  }

  /** `list_insert_ordered` with `thread_cmp_pri`: behind all threads of the same priority. */
  method InsertThread(ts: seq<Thread>, t: Thread) returns (r: seq<Thread>, ghost k: nat)
    requires ThreadsInOrder(ts)
    ensures ThreadsInOrder(r) && multiset(r) == multiset(ts) + multiset{t}
    ensures k <= |ts| && r == ts[..k] + [t] + ts[k..] && Behind(ts, t, k)
  {
    var i := 0;
    while i < |ts| && !(t.priority > ts[i].priority)
      invariant 0 <= i <= |ts|
      invariant forall j :: 0 <= j < i ==> ts[j].priority >= t.priority
    {
      i := i + 1;
    }
    k := i;
    r := PutAt(ts, i, t);
  }

  /** Place `k` in `ts` is behind every thread at least as urgent as `t` and before the others. */
  ghost predicate Behind(ts: seq<Thread>, t: Thread, k: nat)
    reads t, ts
  {
    && k <= |ts| && (forall i :: 0 <= i < k ==> ts[i].priority >= t.priority)
    && (k < |ts| ==> ts[k].priority < t.priority)
  }

  method PutAt(ts: seq<Thread>, k: nat, t: Thread) returns (r: seq<Thread>)
    requires ThreadsInOrder(ts) && Behind(ts, t, k)
    ensures r == ts[..k] + [t] + ts[k..] && ThreadsInOrder(r) && multiset(r) == multiset(ts) + multiset{t}
  {
    r := ts[..k] + [t] + ts[k..];
    PutIn(ts, k, t);
    forall i, j | 0 <= i < j < |r| ensures r[i].priority >= r[j].priority {
      assert r[i] == if i < k then ts[i] else if i == k then t else ts[i - 1];
      assert r[j] == if j < k then ts[j] else if j == k then t else ts[j - 1];
    }
  }

  lemma PutIn<T>(ts: seq<T>, k: nat, t: T)
    requires k <= |ts|
    ensures multiset(ts[..k] + [t] + ts[k..]) == multiset(ts) + multiset{t}
  {
    assert ts == ts[..k] + ts[k..];
  }

  /** `list_remove` of an element that is on the list. */
  method Remove<T(==)>(ts: seq<T>, t: T) returns (rest: seq<T>, ghost a: nat)
    requires t in ts
    ensures a < |ts| && ts[a] == t && rest == ts[..a] + ts[a + 1..]
    ensures multiset(rest) + multiset{t} == multiset(ts)
  {
    var k := 0;
    while ts[k] != t
      invariant 0 <= k < |ts| && t in ts[k..]
      decreases |ts| - k
    {
      k := k + 1;
    }
    a := k;
    rest := ts[..k] + ts[k + 1..];
    assert ts == ts[..k] + [t] + ts[k + 1..];
  }

  /** The first of the most urgent threads. */
  ghost predicate FirstMost(ts: seq<Thread>, a: nat)
    reads ts
  {
    && a < |ts| && (forall i :: 0 <= i < |ts| ==> ts[i].priority <= ts[a].priority)
    && (forall i :: 0 <= i < a ==> ts[i].priority < ts[a].priority)
  }

  /** The first of the most urgent among the first `n`. */
  ghost predicate FirstMostOf(ts: seq<Thread>, n: nat, a: nat)
    reads ts
  {
    && a < n <= |ts| && (forall i :: 0 <= i < n ==> ts[i].priority <= ts[a].priority)
    && (forall i :: 0 <= i < a ==> ts[i].priority < ts[a].priority)
  }

  /** Inserting one more thread: who stands in front afterwards. */
  lemma FrontAfter(ts: seq<Thread>, i: nat, a: nat, r: seq<Thread>, k: nat, q: seq<Thread>) returns (b: nat)
    requires i < |ts| && Behind(r, ts[i], k) && q == r[..k] + [ts[i]] + r[k..]
    requires if i == 0 then r == [] else r != [] && FirstMostOf(ts, i, a) && r[0] == ts[a]
    ensures q != [] && FirstMostOf(ts, i + 1, b) && q[0] == ts[b]
  {
    b := if k == 0 then i else a;
  }

  /** `list_sort` with `thread_cmp_pri`; equally urgent threads keep their order, so the first of the
      most urgent comes out in front. */
  method SortThreads(ts: seq<Thread>) returns (r: seq<Thread>, ghost a: nat)
    ensures ThreadsInOrder(r) && multiset(r) == multiset(ts)
    ensures ts != [] ==> r != [] && FirstMost(ts, a) && r[0] == ts[a]
  {
    r, a := [], 0;
    for i := 0 to |ts|
      invariant ThreadsInOrder(r) && multiset(r) == multiset(ts[..i])
      invariant if i == 0 then r == [] else r != [] && FirstMostOf(ts, i, a) && r[0] == ts[a]
    {
      ghost var k, before := 0, r;
      r, k := InsertThread(r, ts[i]);
      a := FrontAfter(ts, i, a, before, k, r);
      TakeNext(ts, i, i + 1);
    }
    assert ts[..|ts|] == ts;
  }

  lemma TakeNext<T>(ts: seq<T>, i: nat, next: nat)
    requires i < |ts| && next == i + 1
    ensures ts[..next] == ts[..i] + [ts[i]]
  {
  }

  /** The choice of `sema_up`: sort the waiters and pop the front, of the most urgent ones the first. */
  method PopWaiter(waiters: seq<Thread>) returns (next: Thread, rest: seq<Thread>, ghost a: nat)
    requires waiters != []
    ensures FirstMost(waiters, a) && next == waiters[a]
    ensures multiset([next]) + multiset(rest) == multiset(waiters) && next in waiters
    ensures forall t :: t in waiters ==> t.priority <= next.priority
    ensures ThreadsInOrder(rest)
  {
    var sorted;
    sorted, a := SortThreads(waiters);
    SameMembers(sorted, waiters);
    next, rest := sorted[0], sorted[1..];
    assert sorted == [next] + rest;
  }

  /** A thread listed once stands at one place only. */
  lemma OnceOnly<T>(ts: seq<T>, a: nat, i: nat)
    requires a < |ts| && i < |ts| && i != a && multiset(ts)[ts[a]] == 1
    ensures ts[i] != ts[a]
  {
    var rest := ts[..a] + ts[a + 1..];
    assert ts == ts[..a] + [ts[a]] + ts[a + 1..];
    assert multiset(ts) == multiset(rest) + multiset{ts[a]};
    assert ts[i] == rest[if i < a then i else i - 1];
    assert ts[i] in multiset(rest);
  }

  /** Leaving out the one thread that is out of place leaves an ordered list. */
  lemma RestInOrder(ts: seq<Thread>, a: nat)
    requires a < |ts| && multiset(ts)[ts[a]] == 1
    requires forall i, j :: 0 <= i < j < |ts| && ts[i] != ts[a] && ts[j] != ts[a] ==> ts[i].priority >= ts[j].priority
    ensures ThreadsInOrder(ts[..a] + ts[a + 1..])
  {
    var rest := ts[..a] + ts[a + 1..];
    forall i, j | 0 <= i < j < |rest| ensures rest[i].priority >= rest[j].priority {
      var i', j' := if i < a then i else i + 1, if j < a then j else j + 1;
      OnceOnly(ts, a, i');
      OnceOnly(ts, a, j');
      assert rest[i] == ts[i'] && rest[j] == ts[j'];
    }
  }

  // ----- the donation facts -----

  /** The thread's priority is the largest of its own and those of the locks it holds. */
  ghost predicate IsMax(t: Thread)
    reads t, t.holding
  {
    && t.priority >= t.originalPri
    && (forall l :: l in t.holding ==> t.priority >= l.maxPri)
    && (t.priority == t.originalPri || exists l :: l in t.holding && l.maxPri == t.priority)
  }

  /** `before` is the largest of `own` and what `pri` records of the locks held. */
  ghost predicate Justified(own: int, held: multiset<Lock>, pri: map<Lock, int>, before: int) {
    && before >= own
    && (forall l :: l in held ==> l in pri && before >= pri[l])
    && (before == own || exists l :: l in held && l in pri && pri[l] == before)
  }

  /** `thread_update_pri`: sort the held locks and take the larger of the front and the own priority. */
  method UpdatePri(t: Thread)
    modifies t`priority, t`holding
    ensures IsMax(t) && multiset(t.holding) == multiset(old(t.holding))
  {
    var maxPri := t.originalPri;
    if t.holding != [] {
      var sorted := SortLocks(t.holding);
      SameMembers(sorted, t.holding);
      t.holding := sorted;
      if t.holding[0].maxPri > maxPri {
        maxPri := t.holding[0].maxPri;
      }
    }
    t.priority := maxPri;
  }

  // ----- the chain of locks waited for -----

  /** `waits` says for what lock a lock's holder waits; the `n`-th lock from `start` on. */
  ghost function Hop(waits: map<Lock, Lock?>, start: Lock, n: nat): Lock? {
    if n == 0 then start
    else
      var l := Hop(waits, start, n - 1);
      if l == null || l !in waits then null else waits[l]
  }

  ghost predicate OnChain(waits: map<Lock, Lock?>, start: Lock, l: Lock) {
    exists n: nat :: Hop(waits, start, n) == l
  }

  /** `done` holds the first `n` locks of the chain and `lk` is the next one. */
  ghost predicate Walked(waits: map<Lock, Lock?>, start: Lock, n: nat, done: set<Lock>, lk: Lock?) {
    && Hop(waits, start, n) == lk
    && forall l :: l in waits ==> (l in done <==> Earlier(waits, start, n, l))
  }

  ghost predicate Earlier(waits: map<Lock, Lock?>, start: Lock, n: nat, l: Lock) {
    exists j: nat :: j < n && Hop(waits, start, j) == l
  }

  lemma EarlierNext(waits: map<Lock, Lock?>, start: Lock, n: nat, next: nat, l: Lock)
    requires next == n + 1
    ensures Earlier(waits, start, next, l) <==> Earlier(waits, start, n, l) || Hop(waits, start, n) == l
  {
    if Hop(waits, start, n) == l {
      assert n < next;
    }
  }

  lemma WalkedNext(waits: map<Lock, Lock?>, start: Lock, n: nat, done: set<Lock>, lk: Lock, next: nat)
    requires Walked(waits, start, n, done, lk) && lk in waits && next == n + 1
    ensures Walked(waits, start, next, done + {lk}, waits[lk])
  {
    forall l | l in waits ensures l in done + {lk} <==> Earlier(waits, start, next, l) {
      EarlierNext(waits, start, n, next, l);
    }
  }

  lemma WalkedAt(waits: map<Lock, Lock?>, start: Lock, n: nat, done: set<Lock>, lk: Lock?, l: Lock)
    requires Walked(waits, start, n, done, lk) && l in waits
    ensures l in done ==> OnChain(waits, start, l)
    ensures OnChain(waits, start, l) && l !in done ==> exists m: nat :: n <= m && Hop(waits, start, m) == l
  {
  }

  class System {
    ghost var threads: set<Thread>
    ghost var locks: set<Lock>
    var ready: seq<Thread>

    /** Who holds and who waits is consistent, and every lock waited for has a holder. */
    ghost predicate Linked()
      reads this, threads, locks
    {
      LinkedBut(null)
    }

    /** The same, except that `loose` may be waited for without having a holder. */
    ghost predicate LinkedBut(loose: Lock?)
      reads this, threads, locks
    {
      && (forall t :: t in threads ==>
            && (t.waitingLock != null ==>
                  t.waitingLock in locks && (t.waitingLock.holder != null || t.waitingLock == loose))
            && (forall l :: l in t.holding ==> l in locks && l.holder == t))
      && (forall l :: l in locks ==> (l.holder != null ==> l.holder in threads && l in l.holder.holding))
    }

    ghost predicate AllMax()
      reads this, threads, locks
      requires Linked()
    {
      forall t :: t in threads ==> IsMax(t)
    }

    /** No waiter exceeds the priority recorded in the lock it waits for. */
    ghost predicate Donated()
      reads this, threads, locks
      requires Linked()
    {
      forall t :: t in threads && t.waitingLock != null ==> t.priority <= t.waitingLock.maxPri
    }

    /** The ready list is ordered by priority and holds each ready thread once. */
    ghost predicate InOrder()
      reads this, ready
    {
      ThreadsInOrder(ready) && forall t :: t in ready ==> multiset(ready)[t] == 1
    }

    ghost predicate Valid()
      reads this, threads, locks, ready
    {
      Linked() && AllMax() && Donated() && InOrder() && forall t :: t in ready ==> t in threads
    }

    /** Whatever a thread waits for, directly or through others, runs at no lower priority. */
    lemma {:induction false} NoInversion(path: seq<Thread>)
      requires Valid() && |path| > 0 && path[0] in threads
      requires forall i :: 0 <= i < |path| - 1 ==>
                 path[i].waitingLock != null && path[i].waitingLock.holder == path[i + 1]
      ensures path[|path| - 1] in threads && path[0].priority <= path[|path| - 1].priority
    {
      if |path| > 1 {
        var l := path[0].waitingLock;
        assert l in locks && l in l.holder.holding && IsMax(l.holder);
        NoInversion(path[1..]);
      }
    }

    /** The ready list is in order once `t` is left out of account. */
    ghost predicate InOrderBut(t: Thread)
      reads this, ready
    {
      && (forall i, j :: 0 <= i < j < |ready| && ready[i] != t && ready[j] != t ==>
            ready[i].priority >= ready[j].priority)
      && (forall x :: x in ready ==> multiset(ready)[x] == 1)
    }

    /** Take a thread out of the ready list and insert it again at its priority's place. */
    method Reinsert(t: Thread)
      requires t in ready && InOrderBut(t)
      modifies this`ready
      ensures InOrder() && multiset(ready) == multiset(old(ready))
    {
      ghost var a, k;
      var rest;
      rest, a := Remove(ready, t);
      RestInOrder(ready, a);
      ready, k := InsertThread(rest, t);
      SameMembers(ready, old(ready));
    }

    /** `thread_donate_pri`. */
    method DonatePri(t: Thread)
      requires InOrderBut(t)
      modifies t`priority, t`holding, this`ready
      ensures IsMax(t) && multiset(t.holding) == multiset(old(t.holding))
      ensures InOrder() && multiset(ready) == multiset(old(ready))
    {
      UpdatePri(t);
      if t in ready {
        Reinsert(t);
      }
    }

    /** Waiters are covered by their lock, except those of `lk`, who are covered by `p`. */
    ghost predicate DonatedBut(lk: Lock?, p: int)
      reads this, threads, locks
      requires Linked()
    {
      forall t :: t in threads && t.waitingLock != null ==>
        t.priority <= t.waitingLock.maxPri || (t.waitingLock == lk && t.priority <= p)
    }

    /** One turn of the donation loop: raise the lock, update its holder, move on to the lock the
        holder waits for. */
    method DonateStep(lk: Lock, p: int) returns (next: Lock?)
      requires Walking(lk, p) && Waited(lk) && lk.maxPri < p
      modifies lk`maxPri, lk.holder`priority, lk.holder`holding, this`ready
      ensures Walking(next, p) && Waited(next)
      ensures next == lk.holder.waitingLock && lk.maxPri == p
      ensures lk.holder.priority == if old(lk.holder.priority) > p then old(lk.holder.priority) else p
      ensures multiset(lk.holder.holding) == multiset(old(lk.holder.holding))
      ensures Below(p) < old(Below(p))
    {
      WalkingIs(lk, p);
      next := DonateOnce(lk, p);
      WalkingIs(next, p);
    }

    /** The same with every fact in the open. */
    method DonateOnce(lk: Lock, p: int) returns (next: Lock?)
      requires Linked() && AllMax() && DonatedBut(lk, p) && InOrder() && (forall t :: t in ready ==> t in threads)
      requires lk in locks && lk.holder != null && lk.maxPri < p
      modifies lk`maxPri, lk.holder`priority, lk.holder`holding, this`ready
      ensures Linked() && AllMax() && DonatedBut(next, p) && InOrder() && (forall t :: t in ready ==> t in threads)
      ensures next == lk.holder.waitingLock && lk.maxPri == p
      ensures lk.holder.priority == if old(lk.holder.priority) > p then old(lk.holder.priority) else p
      ensures multiset(lk.holder.holding) == multiset(old(lk.holder.holding))
      ensures Below(p) < old(Below(p))
    {
      var h := lk.holder;
      assert lk in Below(p);
      lk.maxPri := p;
      DonatePri(h);
      SameMembers(h.holding, old(h.holding));
      SameMembers(ready, old(ready));
      next := h.waitingLock;
      forall t | t in threads && t != h ensures IsMax(t) {
        assert lk !in t.holding;
      }
      assert h.priority == if old(h.priority) > p then old(h.priority) else p;
      forall t | t in threads && t.waitingLock != null
        ensures t.priority <= t.waitingLock.maxPri || (t.waitingLock == next && t.priority <= p)
      {
        assert t != h ==> t.priority == old(t.priority);
        assert t.waitingLock != lk ==> t.waitingLock.maxPri == old(t.waitingLock.maxPri);
      }
    }

    /** The lock exists and its holder is one of the threads. */
    ghost predicate Waited(lk: Lock?)
      reads this, locks
    {
      lk != null ==> lk in locks && lk.holder != null && lk.holder in threads
    }

    /** Every fact, except that waiters of `lk` may lag behind up to `p`. */
    ghost predicate Lagging(lk: Lock?, p: int)
      reads this, threads, locks, ready
    {
      Linked() && AllMax() && DonatedBut(lk, p) && InOrder() && (forall t :: t in ready ==> t in threads)
    }

    /** The same, unfolded only where a proof calls `WalkingIs`. */
    ghost predicate Walking(lk: Lock?, p: int)
      reads this, threads, locks, ready
    {
      forall q :: Is(q, p) ==> Lagging(lk, q)
    }

    lemma WalkingIs(lk: Lock?, p: int)
      ensures Walking(lk, p) <==> Lagging(lk, p)
    {
      assert Is(p, p);
    }

    /** Priorities change only by being raised to `p`. */
    twostate predicate RaisedTo(p: int)
      reads this, threads, locks
      requires threads == old(threads) && locks == old(locks)
    {
      && (forall t :: t in threads ==> t.priority == old(t.priority) || old(t.priority) < t.priority == p)
      && (forall t :: t in threads ==> multiset(t.holding) == multiset(old(t.holding)))
      && (forall l :: l in locks ==> l.maxPri == old(l.maxPri) || old(l.maxPri) < l.maxPri == p)
    }

    /** For what lock each lock's holder waits. */
    ghost function Waits(): (w: map<Lock, Lock?>)
      requires Linked()
      reads this, threads, locks
      ensures w.Keys == locks
      ensures forall l :: l in locks ==> w[l] == if l.holder == null then null else l.holder.waitingLock
    {
      map l | l in locks :: if l.holder == null then null else l.holder.waitingLock
    }

    /** Past a lock that already records `p`, every lock of the chain does. */
    lemma {:induction false} RestCovered(waits: map<Lock, Lock?>, start: Lock, n: nat, m: nat, p: int)
      requires Linked() && AllMax() && Donated() && n <= m && waits.Keys == locks && WaitsAre(waits)
      requires var l := Hop(waits, start, n); l != null ==> l in locks && l.maxPri >= p
      ensures var l := Hop(waits, start, m); l != null ==> l in locks && l.maxPri >= p
    {
      if n < m {
        RestCovered(waits, start, n, m - 1, p);
        var l := Hop(waits, start, m - 1);
        if l != null && l.holder != null && l.holder.waitingLock != null {
          assert IsMax(l.holder) && l in l.holder.holding;
        }
      }
    }

    /** Exactly the locks of the chain that record less than `p` are raised, to `p`. */
    twostate predicate ChainRaised(start: Lock, p: int)
      reads this, threads, locks
      requires Linked() && locks == old(locks)
    {
      forall l :: l in locks ==>
        l.maxPri == if OnChain(Waits(), start, l) && old(l.maxPri) < p then p else old(l.maxPri)
    }

    /** Nobody's priority changes who holds no lock of the chain. */
    twostate predicate OthersKeep(start: Lock)
      reads this, threads, locks
      requires Linked() && threads == old(threads)
    {
      forall t :: t in threads && (forall l :: l in t.holding ==> !OnChain(Waits(), start, l)) ==>
        t.priority == old(t.priority)
    }

    /** What the locks record. */
    ghost function Recorded(): (pri: map<Lock, int>)
      reads this, locks
    {
      map l | l in locks :: l.maxPri
    }

    ghost function Holdings(): (held: map<Thread, multiset<Lock>>)
      reads this, threads
    {
      map t | t in threads :: multiset(t.holding)
    }

    /** The same locks are held, whatever their order. */
    ghost predicate HoldingsAre(held: map<Thread, multiset<Lock>>)
      reads this, threads
      requires held.Keys == threads
    {
      forall t :: t in threads ==> multiset(t.holding) == held[t]
    }

    ghost predicate WaitsAre(waits: map<Lock, Lock?>)
      reads this, threads, locks
      requires waits.Keys == locks
    {
      forall l :: l in locks ==>
        waits[l] == if l.holder == null || l.holder !in threads then null else l.holder.waitingLock
    }

    /** The locks in `done` recorded less than `p` and record `p`; nothing else changed. */
    ghost predicate Raised(waits: map<Lock, Lock?>, pri: map<Lock, int>, done: set<Lock>, p: int)
      reads this, threads, locks
      requires pri.Keys == waits.Keys == locks
    {
      && WaitsAre(waits)
      && forall l :: l in locks ==> if l in done then pri[l] < p == l.maxPri else l.maxPri == pri[l]
    }

    /** One turn of the loop. */
    method Turn(lk: Lock, p: int, ghost waits: map<Lock, Lock?>, ghost pri: map<Lock, int>, ghost done: set<Lock>,
                ghost held: map<Thread, multiset<Lock>>) returns (next: Lock?)
      requires Walking(lk, p) && Waited(lk) && lk.maxPri < p
      requires pri.Keys == waits.Keys == locks && held.Keys == threads
      requires Raised(waits, pri, done, p) && HoldingsAre(held)
      modifies lk`maxPri, lk.holder`priority, lk.holder`holding, this`ready
      ensures Walking(next, p) && Waited(next) && Raised(waits, pri, done + {lk}, p) && waits[lk] == next
      ensures HoldingsAre(held) && Below(p) < old(Below(p))
      ensures lk.holder.priority == if old(lk.holder.priority) > p then old(lk.holder.priority) else p
    {
      next := DonateStep(lk, p);
      assert forall l :: l in locks && l != lk ==> l.maxPri == old(l.maxPri);
      assert forall t :: t in threads && t != lk.holder ==> t.holding == old(t.holding);
    }

    /** The loop itself: it raises the first locks of the chain and stops where nothing is left to do. */
    method WalkChain(cur: Thread, lock: Lock) returns (ghost n: nat, ghost done: set<Lock>, ghost last: Lock?)
      requires Walking(lock, cur.priority) && Waited(lock) && cur in threads && Linked()
      modifies threads`priority, threads`holding, locks`maxPri, this`ready
      ensures Walking(last, cur.priority) && cur.priority == old(cur.priority) && HoldingsAre(old(Holdings()))
      ensures Raised(old(Waits()), old(Recorded()), done, cur.priority)
      ensures Walked(old(Waits()), lock, n, done, last)
      ensures last != null ==> last in locks && last.maxPri >= cur.priority
    {
      var lk: Lock? := lock;
      ghost var p, waits, pri, held := cur.priority, Waits(), Recorded(), Holdings();
      n, done := 0, {};
      while lk != null && cur.priority > lk.maxPri
        invariant cur.priority == p && Walking(lk, p) && Waited(lk) && HoldingsAre(held)
        invariant Raised(waits, pri, done, p) && Walked(waits, lock, n, done, lk)
        decreases Below(p)
      {
        var here: Lock := lk;
        lk := Turn(here, cur.priority, waits, pri, done, held);
        WalkedNext(waits, lock, n, done, here, n + 1);
        n, done := n + 1, done + {here};
      }
      last := lk;
    }

    /** Which locks are raised, once the loop has ended. */
    lemma RaisedExactly(waits: map<Lock, Lock?>, pri: map<Lock, int>, start: Lock, n: nat, done: set<Lock>,
                        last: Lock?, p: int, l: Lock)
      requires Linked() && AllMax() && Donated() && pri.Keys == waits.Keys == locks && start in locks && l in locks
      requires Raised(waits, pri, done, p) && Walked(waits, start, n, done, last)
      requires last != null ==> last in locks && last.maxPri >= p
      ensures l.maxPri == if OnChain(waits, start, l) && pri[l] < p then p else pri[l]
    {
      WalkedAt(waits, start, n, done, last, l);
      if OnChain(waits, start, l) && l !in done {
        var m: nat :| n <= m && Hop(waits, start, m) == l;
        RestCovered(waits, start, n, m, p);
      }
    }

    /** The donation loop: it ends even on a cyclic chain, because each turn raises one more lock. */
    method Walk(cur: Thread, lock: Lock)
      requires Lagging(lock, cur.priority) && cur in threads && lock in locks && lock.holder != null
      modifies threads`priority, threads`holding, locks`maxPri, this`ready
      ensures Linked() && AllMax() && Donated() && InOrder() && (forall t :: t in ready ==> t in threads)
      ensures cur.priority == old(cur.priority) && Waits() == old(Waits()) && RaisedTo(cur.priority)
      ensures ChainRaised(lock, cur.priority) && OthersKeep(lock)
    {
      ghost var p, waits, pri := cur.priority, Waits(), Recorded();
      WalkingIs(lock, p);
      AllJustified();
      ghost var n, done, last := WalkChain(cur, lock);
      WalkingIs(last, p);
      SameWaits(waits);
      forall l | l in locks
        ensures l.maxPri == if OnChain(waits, lock, l) && old(l.maxPri) < p then p else old(l.maxPri)
      {
        RaisedExactly(waits, pri, lock, n, done, last, p, l);
      }
      forall t | t in threads
        ensures multiset(t.holding) == multiset(old(t.holding))
        ensures t.priority == old(t.priority) || old(t.priority) < t.priority == p
        ensures (forall l :: l in t.holding ==> !OnChain(waits, lock, l)) ==> t.priority == old(t.priority)
      {
        PriorityIs(t, waits, pri, lock, p, old(t.priority));
      }
    }

    lemma SameWaits(waits: map<Lock, Lock?>)
      requires Linked() && waits.Keys == locks && WaitsAre(waits)
      ensures Waits() == waits
    {
    }

    lemma AllJustified()
      requires Linked() && AllMax()
      ensures forall t :: t in threads ==> Justified(t.originalPri, multiset(t.holding), Recorded(), t.priority)
    {
      forall t | t in threads ensures Justified(t.originalPri, multiset(t.holding), Recorded(), t.priority) {
        assert IsMax(t);
        assert forall l :: l in multiset(t.holding) ==> l in t.holding;
        if l :| l in t.holding && l.maxPri == t.priority {
          assert l in multiset(t.holding);
        }
      }
    }

    /** A thread's priority before and after its locks were raised. */
    lemma PriorityIs(t: Thread, waits: map<Lock, Lock?>, pri: map<Lock, int>, start: Lock, p: int, before: int)
      requires pri.Keys == locks && IsMax(t) && forall l :: l in t.holding ==> l in locks
      requires forall l :: l in t.holding ==> l.maxPri == if OnChain(waits, start, l) && pri[l] < p then p else pri[l]
      requires Justified(t.originalPri, multiset(t.holding), pri, before)
      ensures t.priority == before || before < t.priority == p
      ensures (forall l :: l in t.holding ==> !OnChain(waits, start, l)) ==> t.priority == before
    {
    }

    /** The waiting branch of `lock_acquire`: every fact is restored, with the new waiter included. */
    method Donate(cur: Thread, lock: Lock)
      requires Valid() && cur in threads && lock in locks && lock.holder != null && cur.waitingLock == null
      modifies threads`priority, threads`holding, cur`waitingLock, locks`maxPri, this`ready
      ensures Valid() && cur.waitingLock == lock && cur.priority == old(cur.priority) && RaisedTo(cur.priority)
      ensures ChainRaised(lock, cur.priority) && OthersKeep(lock)
      ensures old(HeldOnce()) ==> HeldOnce()
    {
      BeginWait(cur, lock);
      Walk(cur, lock);
      forall t, l | t in threads && l in t.holding ensures l in old(t.holding) {
        SameMembers(t.holding, old(t.holding));
      }
    }

    /** The new waiter is recorded; only its own lock may lag behind it. */
    method BeginWait(cur: Thread, lock: Lock)
      requires Valid() && cur in threads && lock in locks && lock.holder != null && cur.waitingLock == null
      modifies cur`waitingLock
      ensures Linked() && AllMax() && DonatedBut(lock, cur.priority)
      ensures InOrder() && (forall t :: t in ready ==> t in threads)
      ensures cur.waitingLock == lock
    {
      cur.waitingLock := lock;
      assert forall t :: t in threads ==> old(IsMax(t));
    }

    ghost function Below(p: int): set<Lock>
      reads this, locks
    {
      set l | l in locks && l.maxPri < p
    }

    /** No lock is listed twice by its holder. */
    ghost predicate HeldOnce()
      reads this, threads
    {
      forall t, l :: t in threads && l in t.holding ==> multiset(t.holding)[l] == 1
    }

    /** Every fact, except that `loose` has no holder and may still be waited for. */
    ghost predicate ValidBut(loose: Lock)
      reads this, threads, locks, ready
    {
      && LinkedBut(loose) && loose in locks && loose.holder == null
      && (forall t :: t in threads ==> IsMax(t))
      && (forall t :: t in threads && t.waitingLock != null && t.waitingLock != loose ==>
            t.priority <= t.waitingLock.maxPri)
      && InOrder() && forall t :: t in ready ==> t in threads
    }

    /** What `lock_release` changes. */
    twostate predicate Released(cur: Thread, lock: Lock)
      reads this, threads, locks
      requires threads == old(threads) && locks == old(locks)
    {
      && (forall t :: t in threads ==> t.waitingLock == old(t.waitingLock))
      && (forall t :: t in threads && t != cur ==>
            t.priority == old(t.priority) && t.holding == old(t.holding) && t.originalPri == old(t.originalPri))
      && (forall l :: l in locks ==> l.maxPri == old(l.maxPri) && (l != lock ==> l.holder == old(l.holder)))
      && cur in threads && lock in locks && lock.holder == null
      && (forall l :: l in cur.holding ==> l in old(cur.holding) && l != lock)
      && (forall l :: l in old(cur.holding) && l != lock ==> l in cur.holding)
      && (forall l :: l in cur.holding ==> multiset(cur.holding)[l] == 1)
    }

    /** `lock_release` up to waking a waiter: the holder falls back to what its other locks justify. */
    method Release(cur: Thread, lock: Lock)
      requires Valid() && HeldOnce() && cur in threads && cur !in ready && cur.waitingLock == null
      requires lock in cur.holding
      modifies lock`holder, cur`holding, cur`priority
      ensures ValidBut(lock) && HeldOnce() && lock !in cur.holding
      ensures cur.priority <= old(cur.priority)
      ensures forall l :: l in cur.holding <==> l in old(cur.holding) && l != lock
    {
      ReleaseFields(cur, lock);
      forall t | t in threads && t != cur ensures IsMax(t) {
        assert old(IsMax(t));
        assert forall l :: l in t.holding ==> l in locks && l.maxPri == old(l.maxPri);
      }
    }

    /** The field updates of `lock_release`. */
    method ReleaseFields(cur: Thread, lock: Lock)
      requires Linked() && HeldOnce() && cur in threads && lock in cur.holding
      modifies lock`holder, cur`holding, cur`priority
      ensures Released(cur, lock) && IsMax(cur) && old(lock.holder) == cur
    {
      lock.holder := null;
      ghost var a;
      cur.holding, a := Remove(cur.holding, lock);
      UpdatePri(cur);
      DropOnce(old(cur.holding), cur.holding, lock);
    }

    /** What getting a lock changes. */
    twostate predicate Took(cur: Thread, lock: Lock)
      reads this, threads, locks
      requires threads == old(threads) && locks == old(locks)
    {
      && (forall t :: t in threads ==> t.priority == old(t.priority) && t.originalPri == old(t.originalPri))
      && (forall t :: t in threads && t != cur ==> t.waitingLock == old(t.waitingLock) && t.holding == old(t.holding))
      && (forall l :: l in locks && l != lock ==> l.maxPri == old(l.maxPri) && l.holder == old(l.holder))
      && cur in threads && lock in locks && lock.holder == cur && lock.maxPri == cur.priority && cur.waitingLock == null
      && (forall l :: l in cur.holding ==> l in old(cur.holding) || l == lock)
      && (forall l :: l in old(cur.holding) ==> l in cur.holding) && lock in cur.holding
    }

    /** The end of `lock_acquire` for the thread that got the lock, the most urgent of its waiters. */
    method TakeLock(cur: Thread, lock: Lock)
      requires ValidBut(lock) && HeldOnce() && cur in threads && (cur.waitingLock == null || cur.waitingLock == lock)
      requires forall t :: t in threads && t.waitingLock == lock ==> t.priority <= cur.priority
      modifies cur`waitingLock, cur`holding, lock`maxPri, lock`holder
      ensures Valid() && HeldOnce() && lock.holder == cur && cur.waitingLock == null && lock.maxPri == cur.priority
      ensures forall l :: l in cur.holding <==> l in old(cur.holding) || l == lock
    {
      TakeFields(cur, lock);
      forall t | t in threads ensures IsMax(t) {
        assert old(IsMax(t));
        assert forall l :: l in old(t.holding) ==> l in locks && l != lock && l.maxPri == old(l.maxPri);
      }
    }

    /** The field updates at the end of `lock_acquire`. */
    method TakeFields(cur: Thread, lock: Lock)
      requires HeldOnce() && cur in threads && lock in locks && lock !in cur.holding
      modifies cur`waitingLock, cur`holding, lock`maxPri, lock`holder
      ensures Took(cur, lock) && HeldOnce()
    {
      cur.waitingLock := null;
      lock.maxPri := cur.priority;
      ghost var k;
      cur.holding, k := InsertLock(cur.holding, lock);
      lock.holder := cur;
      AddOnce(old(cur.holding), cur.holding, lock);
    }

    /** `lock_acquire` of a lock nobody holds. */
    method AcquireFree(cur: Thread, lock: Lock)
      requires Valid() && HeldOnce() && cur in threads && cur.waitingLock == null && lock in locks
      requires lock.holder == null
      modifies cur`waitingLock, cur`holding, lock`maxPri, lock`holder
      ensures Valid() && HeldOnce() && lock.holder == cur && lock.maxPri == cur.priority
      ensures forall l :: l in cur.holding <==> l in old(cur.holding) || l == lock
    {
      assert forall t :: t in threads ==> IsMax(t);
      TakeLock(cur, lock);
    }

    /** `lock_release` of a lock nobody waits for. */
    method ReleaseUnwaited(cur: Thread, lock: Lock)
      requires Valid() && HeldOnce() && cur in threads && cur !in ready && cur.waitingLock == null
      requires lock in cur.holding
      requires forall t :: t in threads ==> t.waitingLock != lock
      modifies lock`holder, cur`holding, cur`priority
      ensures Valid() && HeldOnce() && lock.holder == null && lock !in cur.holding
      ensures cur.priority <= old(cur.priority)
      ensures forall l :: l in cur.holding <==> l in old(cur.holding) && l != lock
    {
      Release(cur, lock);
    }

    /** `lock_release` followed by the waiter that `sema_up` pops resuming in `lock_acquire`: every
        fact is kept, and the releaser keeps only the priority it still deserves. */
    method HandOver(cur: Thread, lock: Lock, waiters: seq<Thread>)
        returns (next: Thread, rest: seq<Thread>, ghost a: nat)
      requires Valid() && HeldOnce() && cur in threads && cur !in ready && cur.waitingLock == null
      requires lock in cur.holding
      requires waiters != [] && forall t :: t in waiters <==> t in threads && t.waitingLock == lock
      modifies lock, cur`holding, cur`priority, threads`waitingLock, threads`holding
      ensures Valid() && HeldOnce() && lock.holder == next && lock !in cur.holding && next.waitingLock == null
      ensures FirstMost(waiters, a) && next == waiters[a]
      ensures lock.maxPri == next.priority
      ensures forall l :: l in next.holding <==> l in old(next.holding) || l == lock
      ensures forall l :: l in cur.holding <==> l in old(cur.holding) && l != lock
      ensures forall t :: t in threads && t != cur && t != next ==> t.holding == old(t.holding)
      ensures next in waiters && multiset([next]) + multiset(rest) == multiset(waiters)
      ensures forall t :: t in waiters ==> old(t.priority) <= next.priority == old(next.priority)
      ensures cur.priority <= old(cur.priority)
      ensures forall t :: t in threads && t != next ==> t.waitingLock == old(t.waitingLock)
    {
      next, rest, a := PopWaiter(waiters);
      assert next != cur;
      HandTo(cur, lock, next);
    }

    /** The lock goes from one thread to the most urgent of its waiters. */
    method HandTo(cur: Thread, lock: Lock, next: Thread)
      requires Valid() && HeldOnce() && cur in threads && cur !in ready && cur.waitingLock == null
      requires lock in cur.holding && next in threads && next != cur && next.waitingLock == lock
      requires forall t :: t in threads && t.waitingLock == lock ==> t.priority <= next.priority
      modifies lock`holder, lock`maxPri, cur`holding, cur`priority, next`waitingLock, next`holding
      ensures Valid() && HeldOnce() && lock.holder == next && lock !in cur.holding && next.waitingLock == null
      ensures lock.maxPri == next.priority && cur.priority <= old(cur.priority)
      ensures forall l :: l in next.holding <==> l in old(next.holding) || l == lock
      ensures forall l :: l in cur.holding <==> l in old(cur.holding) && l != lock
    {
      Release(cur, lock);
      TakeLock(next, lock);
    }
  }

  lemma DropOnce<T>(s: seq<T>, r: seq<T>, x: T)
    requires multiset(s)[x] == 1 && multiset(r) + multiset{x} == multiset(s)
    ensures forall y :: y in r <==> y in s && y != x
    ensures forall y :: y in r ==> multiset(r)[y] == multiset(s)[y]
  {
    forall y ensures y in r <==> y in s && y != x {
      assert y in r <==> y in multiset(r);
      assert y in s <==> y in multiset(s);
    }
  }

  lemma AddOnce<T>(s: seq<T>, r: seq<T>, x: T)
    requires x !in s && multiset(r) == multiset(s) + multiset{x}
    ensures forall y :: y in r <==> y in s || y == x
    ensures forall y :: y in s ==> multiset(r)[y] == multiset(s)[y]
    ensures multiset(r)[x] == 1
  {
    forall y ensures y in r <==> y in s || y == x {
      assert y in r <==> y in multiset(r);
      assert y in s <==> y in multiset(s);
    }
    assert x !in multiset(s);
  }
}
