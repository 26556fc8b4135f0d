/** The banker's algorithm (lab7/banker.cpp) as a state machine: accounts, safety as the existence
    of a completion order, and what every run of new / request / terminate keeps. */
module BankerSpec {
  import opened Lists
  import opened Sets

  type Vec = seq<int>
  type Table = map<int, seq<int>>

  function Plus(a: Vec, b: Vec): (v: Vec)
    requires |a| == |b|
  {
    seq(|a|, j requires 0 <= j < |a| => a[j] + b[j])
  }

  function Minus(a: Vec, b: Vec): (v: Vec)
    requires |a| == |b|
  {
    seq(|a|, j requires 0 <= j < |a| => a[j] - b[j])
  }

  predicate Fits(a: Vec, b: Vec) {
    |a| == |b| && forall j :: 0 <= j < |a| ==> a[j] <= b[j]
  }

  predicate NonNegative(a: Vec) {
    forall j :: 0 <= j < |a| ==> a[j] >= 0
  }

  predicate Sized(t: Table, r: nat) {
    forall p :: p in t ==> |t[p]| == r
  }

  // ----- sums over a set of processes -----

  /** What the processes in `ps` hold of resource `j`. */
  ghost function Total(t: Table, ps: set<int>, j: nat): int
    requires forall p :: p in ps ==> p in t && j < |t[p]|
    decreases ps
  {
    if ps == {} then 0
    else
      var p := Choose(ps);
      t[p][j] + Total(t, ps - {p}, j)
  }

  lemma {:induction false} TotalRemove(t: Table, ps: set<int>, p: int, j: nat)
    requires (forall q :: q in ps ==> q in t && j < |t[q]|) && p in ps
    ensures Total(t, ps, j) == t[p][j] + Total(t, ps - {p}, j)
    decreases ps
  {
    var c := Choose(ps);
    if c != p {
      TotalRemove(t, ps - {c}, p, j);
      TotalRemove(t, ps - {p}, c, j);
      assert ps - {c} - {p} == ps - {p} - {c};
    }
  }

  lemma {:induction false} TotalSubset(t: Table, a: set<int>, b: set<int>, j: nat)
    requires (forall q :: q in b ==> q in t && j < |t[q]| && t[q][j] >= 0) && a <= b
    ensures Total(t, a, j) <= Total(t, b, j)
    decreases a
  {
    if a == {} {
      TotalNonNegative(t, b, j);
    } else {
      var p := Choose(a);
      TotalRemove(t, b, p, j);
      TotalSubset(t, a - {p}, b - {p}, j);
    }
  }

  lemma {:induction false} TotalNonNegative(t: Table, ps: set<int>, j: nat)
    requires forall q :: q in ps ==> q in t && j < |t[q]| && t[q][j] >= 0
    ensures Total(t, ps, j) >= 0
    decreases ps
  {
    if ps != {} {
      TotalNonNegative(t, ps - {Choose(ps)}, j);
    }
  }

  /** Tables that agree on `ps` have the same total there. */
  lemma {:induction false} TotalAgree(t: Table, u: Table, ps: set<int>, j: nat)
    requires forall q :: q in ps ==> q in t && q in u && j < |t[q]| && j < |u[q]| && t[q][j] == u[q][j]
    ensures Total(t, ps, j) == Total(u, ps, j)
    decreases ps
  {
    if ps != {} {
      TotalAgree(t, u, ps - {Choose(ps)}, j);
    }
  }

  lemma TotalUpdate(t: Table, ps: set<int>, p: int, v: Vec, j: nat)
    requires (forall q :: q in ps ==> q in t && j < |t[q]|) && j < |v| && p in ps
    ensures Total(t[p := v], ps, j) == Total(t, ps, j) - t[p][j] + v[j]
  {
    TotalRemove(t, ps, p, j);
    TotalRemove(t[p := v], ps, p, j);
    TotalAgree(t, t[p := v], ps - {p}, j);
  }

  // ----- safety -----

  /** `order` runs every process once. */
  ghost predicate Enumerates(order: seq<int>, ps: set<int>) {
    Distinct(order) && Elems(order) == ps
  }

  ghost predicate Accounts(work: Vec, alloc: Table, need: Table) {
    && alloc.Keys == need.Keys
    && Sized(alloc, |work|) && Sized(need, |work|)
    && forall p :: p in alloc ==> NonNegative(alloc[p])
  }

  /** Run in this order, each process's need fits the free resources plus whatever the processes
      before it gave back. */
  ghost predicate Completes(order: seq<int>, work: Vec, alloc: Table, need: Table)
    requires Accounts(work, alloc, need) && Elems(order) <= need.Keys
  {
    forall i, j :: 0 <= i < |order| && 0 <= j < |work| ==>
      CanRun(order, i, j, work, alloc, need)
  }

  ghost predicate CanRun(order: seq<int>, i: nat, j: nat, work: Vec, alloc: Table, need: Table)
    requires Accounts(work, alloc, need) && Elems(order) <= need.Keys && i < |order| && j < |work|
  {
    var p := order[i];
    assert p in Elems(order);
    assert Elems(order[..i]) <= Elems(order);
    need[p][j] <= work[j] + Total(alloc, Elems(order[..i]), j)
  }

  ghost predicate Safe(work: Vec, alloc: Table, need: Table)
    requires Accounts(work, alloc, need)
  {
    exists order :: Enumerates(order, need.Keys) && Completes(order, work, alloc, need)
  }

  // ----- the state machine -----

  datatype Bank = Bank(resource: Vec, remain: Vec, max: Table, alloc: Table, need: Table)

  datatype Command =
    | New(pid: int, req: Vec)
    | Request(pid: int, req: Vec)
    | Terminate(pid: int)
    | Unknown(pid: int, req: Vec)

  predicate Shape(b: Bank) {
    && |b.remain| == |b.resource|
    && b.max.Keys == b.alloc.Keys == b.need.Keys
    && Sized(b.max, |b.resource|) && Sized(b.alloc, |b.resource|) && Sized(b.need, |b.resource|)
  }

  /** remain + sum of allocated = resource. */
  ghost predicate Conserves(b: Bank)
    requires Shape(b)
  {
    forall j :: 0 <= j < |b.resource| ==> b.remain[j] + Total(b.alloc, b.alloc.Keys, j) == b.resource[j]
  }

  /** needed = max - allocated, nothing negative, no claim above the resources. */
  predicate Claims(b: Bank)
    requires Shape(b)
  {
    forall p :: p in b.max ==>
      && NonNegative(b.alloc[p]) && NonNegative(b.need[p])
      && b.need[p] == Minus(b.max[p], b.alloc[p])
      && Fits(b.max[p], b.resource)
  }

  ghost predicate Inv(b: Bank) {
    Shape(b) && Claims(b) && Conserves(b) && Accounts(b.remain, b.alloc, b.need)
    && Safe(b.remain, b.alloc, b.need)
  }

  /** The tables a request would lead to. */
  function Tentative(b: Bank, pid: int, req: Vec): (t: Bank)
    requires Shape(b) && pid in b.max && |req| == |b.resource|
    ensures Shape(t)
  {
    b.(remain := Minus(b.remain, req),
       alloc := b.alloc[pid := Plus(b.alloc[pid], req)],
       need := b.need[pid := Minus(b.need[pid], req)])
  }

  /** The request stays within the claim and the free resources. */
  predicate Affordable(b: Bank, pid: int, req: Vec)
    requires Shape(b) && pid in b.max && |req| == |b.resource|
  {
    Fits(Plus(req, b.alloc[pid]), b.max[pid]) && Fits(req, b.remain)
  }

  lemma TentativeAccounts(b: Bank, pid: int, req: Vec)
    requires Shape(b) && Claims(b) && pid in b.max && |req| == |b.resource| && NonNegative(req)
    ensures var t := Tentative(b, pid, req);
            Accounts(t.remain, t.alloc, t.need)
  {
  }

  ghost predicate Granted(b: Bank, pid: int, req: Vec)
    requires Shape(b) && Claims(b) && pid in b.max && |req| == |b.resource| && NonNegative(req)
  {
    var t := Tentative(b, pid, req);
    TentativeAccounts(b, pid, req);
    Affordable(b, pid, req) && Safe(t.remain, t.alloc, t.need)
  }

  predicate Admitted(b: Bank, pid: int, req: Vec) {
    pid !in b.max && Fits(req, b.resource)
  }

  function Zero(r: nat): Vec {
    seq(r, _ => 0)
  }

  /** What callers must respect: full-length nonnegative vectors, requests by registered pids. */
  predicate Allowed(b: Bank, c: Command) {
    (c.Terminate? || (|c.req| == |b.resource| && NonNegative(c.req)))
    && (c.Request? ==> c.pid in b.max)
  }

  ghost function Step(b: Bank, c: Command): Bank
    requires Shape(b) && Claims(b) && Allowed(b, c)
  {
    match c
    case New(pid, req) =>
      if Admitted(b, pid, req) then
        b.(max := b.max[pid := req], need := b.need[pid := req], alloc := b.alloc[pid := Zero(|req|)])
      else b
    case Request(pid, req) =>
      if Granted(b, pid, req) then Tentative(b, pid, req) else b
    case Terminate(pid) =>
      if pid in b.max then
        b.(remain := Plus(b.remain, b.alloc[pid]),
           max := b.max - {pid}, alloc := b.alloc - {pid}, need := b.need - {pid})
      else b
    case Unknown(_, _) => b
  }

  // ----- every step keeps the invariant -----

  lemma RequestKeeps(b: Bank, pid: int, req: Vec)
    requires Inv(b) && pid in b.max && |req| == |b.resource| && NonNegative(req) && Granted(b, pid, req)
    ensures Inv(Tentative(b, pid, req))
  {
    var t := Tentative(b, pid, req);
    TentativeAccounts(b, pid, req);
    forall j | 0 <= j < |b.resource|
      ensures t.remain[j] + Total(t.alloc, t.alloc.Keys, j) == t.resource[j]
    {
      TotalUpdate(b.alloc, b.alloc.Keys, pid, t.alloc[pid], j);
      assert t.alloc.Keys == b.alloc.Keys;
    }
    var claim := b.max[pid];
    assert t.need[pid] == Minus(claim, t.alloc[pid]);
    assert forall j :: 0 <= j < |req| ==> Plus(req, b.alloc[pid])[j] <= claim[j];
    assert NonNegative(t.need[pid]);
  }

  lemma InitElems(order: seq<int>, x: int)
    ensures Elems(order + [x]) == Elems(order) + {x}
  {
    assert (order + [x])[|order|] == x;
    assert forall p :: p in order ==> p in order + [x];
  }

  /** Running after everybody else, a new process finds all resources free. */
  lemma NewRunsLast(b: Bank, t: Bank, order: seq<int>, pid: int, i: nat, j: nat)
    requires Shape(b) && Accounts(b.remain, b.alloc, b.need) && Conserves(b)
    requires Enumerates(order, b.need.Keys) && Completes(order, b.remain, b.alloc, b.need)
    requires pid !in b.max && Accounts(t.remain, t.alloc, t.need) && t.remain == b.remain
    requires forall p :: p in b.alloc ==> p in t.alloc && t.alloc[p] == b.alloc[p] && t.need[p] == b.need[p]
    requires pid in t.need && Fits(t.need[pid], b.resource)
    requires Elems(order + [pid]) <= t.need.Keys && i <= |order| && j < |b.remain|
    ensures CanRun(order + [pid], i, j, t.remain, t.alloc, t.need)
  {
    var o := order + [pid];
    assert o[..i] == order[..i];
    assert Elems(order[..i]) <= Elems(order);
    TotalAgree(b.alloc, t.alloc, Elems(order[..i]), j);
    var p := o[i];
    if i < |order| {
      assert CanRun(order, i, j, b.remain, b.alloc, b.need);
      assert p == order[i] && p in Elems(order);
    } else {
      assert order[..i] == order;
    }
  }

  lemma NewSafe(b: Bank, pid: int, req: Vec)
    requires Inv(b) && |req| == |b.resource| && NonNegative(req) && Admitted(b, pid, req)
    ensures var t := Step(b, New(pid, req));
            Accounts(t.remain, t.alloc, t.need) && Safe(t.remain, t.alloc, t.need)
  {
    var t := Step(b, New(pid, req));
    NewAccounts(b, pid, req);
    var order :| Enumerates(order, b.need.Keys) && Completes(order, b.remain, b.alloc, b.need);
    EnumeratesOneMore(order, b.need.Keys, pid);
    assert t.need.Keys == b.need.Keys + {pid};
    NewCompletes(b, t, order, pid);
  }

  lemma NewAccounts(b: Bank, pid: int, req: Vec)
    requires Shape(b) && Claims(b) && |req| == |b.resource| && NonNegative(req) && Admitted(b, pid, req)
    ensures var t := Step(b, New(pid, req));
            Shape(t) && Claims(t) && Accounts(t.remain, t.alloc, t.need)
  {
    var t := Step(b, New(pid, req));
    assert t.need[pid] == Minus(t.max[pid], t.alloc[pid]);
  }

  lemma EnumeratesOneMore(order: seq<int>, ps: set<int>, pid: int)
    requires Enumerates(order, ps) && pid !in ps
    ensures Enumerates(order + [pid], ps + {pid})
  {
    InitElems(order, pid);
    assert pid !in Elems(order);
  }

  lemma NewCompletes(b: Bank, t: Bank, order: seq<int>, pid: int)
    requires Shape(b) && Accounts(b.remain, b.alloc, b.need) && Conserves(b)
    requires Enumerates(order, b.need.Keys) && Completes(order, b.remain, b.alloc, b.need)
    requires pid !in b.max && Accounts(t.remain, t.alloc, t.need) && t.remain == b.remain
    requires forall p :: p in b.alloc ==> p in t.alloc && t.alloc[p] == b.alloc[p] && t.need[p] == b.need[p]
    requires pid in t.need && Fits(t.need[pid], b.resource) && Elems(order + [pid]) <= t.need.Keys
    ensures Completes(order + [pid], t.remain, t.alloc, t.need)
  {
    var o := order + [pid];
    forall i, j | 0 <= i < |o| && 0 <= j < |t.remain| ensures CanRun(o, i, j, t.remain, t.alloc, t.need) {
      NewRunsLast(b, t, order, pid, i, j);
    }
  }

  lemma NewKeeps(b: Bank, pid: int, req: Vec)
    requires Inv(b) && |req| == |b.resource| && NonNegative(req) && Admitted(b, pid, req)
    ensures Inv(Step(b, New(pid, req)))
  {
    var t := Step(b, New(pid, req));
    NewSafe(b, pid, req);
    NewAccounts(b, pid, req);
    forall j | 0 <= j < |b.resource|
      ensures t.remain[j] + Total(t.alloc, t.alloc.Keys, j) == t.resource[j]
    {
      TotalRemove(t.alloc, t.alloc.Keys, pid, j);
      assert t.alloc.Keys - {pid} == b.alloc.Keys;
      TotalAgree(b.alloc, t.alloc, b.alloc.Keys, j);
    }
  }

  /** Whoever runs somewhere in a completion order claims no more than all resources. */
  lemma ClaimFits(b: Bank, pid: int, req: Vec, order: seq<int>)
    requires Inv(b) && pid !in b.max && |req| == |b.resource| && NonNegative(req)
    requires var alloc, need := b.alloc[pid := Zero(|req|)], b.need[pid := req];
             && Accounts(b.remain, alloc, need) && Enumerates(order, need.Keys)
             && Completes(order, b.remain, alloc, need)
    ensures Fits(req, b.resource)
  {
    var alloc, need := b.alloc[pid := Zero(|req|)], b.need[pid := req];
    assert pid in Elems(order);
    var i :| 0 <= i < |order| && order[i] == pid;
    var before := Elems(order[..i]);
    assert before <= Elems(order);
    forall j | 0 <= j < |req| ensures req[j] <= b.resource[j] {
      assert CanRun(order, i, j, b.remain, alloc, need);
      TotalSubset(alloc, before, alloc.Keys, j);
      TotalRemove(alloc, alloc.Keys, pid, j);
      assert alloc.Keys - {pid} == b.alloc.Keys;
      TotalAgree(b.alloc, alloc, b.alloc.Keys, j);
    }
  }

  /** `new_judge` admits exactly the processes with which the state stays safe. */
  lemma AdmittedExact(b: Bank, pid: int, req: Vec)
    requires Inv(b) && pid !in b.max && |req| == |b.resource| && NonNegative(req)
    ensures Accounts(b.remain, b.alloc[pid := Zero(|req|)], b.need[pid := req])
    ensures Admitted(b, pid, req) <==> Safe(b.remain, b.alloc[pid := Zero(|req|)], b.need[pid := req])
  {
    var alloc, need := b.alloc[pid := Zero(|req|)], b.need[pid := req];
    if Admitted(b, pid, req) {
      NewSafe(b, pid, req);
    }
    if Safe(b.remain, alloc, need) {
      var order :| Enumerates(order, need.Keys) && Completes(order, b.remain, alloc, need);
      ClaimFits(b, pid, req, order);
    }
  }

  /** In a safe state with a process nothing is overdrawn. */
  lemma SafeCovers(work: Vec, alloc: Table, need: Table, p: int)
    requires Accounts(work, alloc, need) && Safe(work, alloc, need) && p in need
    requires forall q :: q in need ==> NonNegative(need[q])
    ensures NonNegative(work)
  {
    var order :| Enumerates(order, need.Keys) && Completes(order, work, alloc, need);
    assert p in Elems(order);
    var q := order[0];
    assert q in Elems(order);
    forall j | 0 <= j < |work| ensures work[j] >= 0 {
      assert CanRun(order, 0, j, work, alloc, need);
      assert Elems(order[..0]) == {};
    }
  }

  /** `request_judge` grants exactly the requests after which every account is right and the state safe. */
  lemma GrantedExact(b: Bank, pid: int, req: Vec)
    requires Inv(b) && pid in b.max && |req| == |b.resource| && NonNegative(req)
    ensures Granted(b, pid, req) <==> Inv(Tentative(b, pid, req))
  {
    var t := Tentative(b, pid, req);
    if Granted(b, pid, req) {
      RequestKeeps(b, pid, req);
    }
    if Inv(t) {
      SafeCovers(t.remain, t.alloc, t.need, pid);
      forall j | 0 <= j < |req| ensures req[j] <= b.remain[j] && Plus(req, b.alloc[pid])[j] <= b.max[pid][j] {
        assert t.remain[j] == b.remain[j] - req[j];
        assert t.need[pid][j] == b.need[pid][j] - req[j];
      }
    }
  }

  // ----- terminate -----

  /** Dropping a process from an order: who runs at position `i` now, and after whom. */
  lemma DropFromOrder(order: seq<int>, pid: int, i: nat) returns (c: nat)
    requires Distinct(order) && i < |Without(order, pid)|
    ensures c < |order| && Without(order, pid)[i] == order[c] && order[c] != pid
    ensures Elems(Without(order, pid)[..i]) == Elems(order[..c]) - {pid}
  {
    var a := IndexOf(order, pid);
    WithoutAt(order, pid, i);
    if i < a {
      c := i;
      DropBefore(order, pid, a, i);
    } else {
      c := i + 1;
      DropAfter(order, pid, a, i, c);
    }
  }

  lemma DropBefore(order: seq<int>, pid: int, a: nat, i: nat)
    requires Distinct(order) && a == IndexOf(order, pid) && i < a
    ensures Elems(Without(order, pid)[..i]) == Elems(order[..i]) - {pid}
  {
    assert Without(order, pid)[..i] == order[..i];
    if a < |order| {
      assert forall b :: 0 <= b < i ==> order[b] != order[a];
    }
  }

  lemma DropAfter(order: seq<int>, pid: int, a: nat, i: nat, c: nat)
    requires Distinct(order) && a == IndexOf(order, pid) <= i && c == i + 1 < |order|
    ensures Elems(Without(order, pid)[..i]) == Elems(order[..c]) - {pid}
  {
    DropSlices(order, a, i, c);
    PartsWithout(order[..a], order[a + 1..c], pid);
  }

  lemma DropSlices(order: seq<int>, a: nat, i: nat, c: nat)
    requires Distinct(order) && a <= i && c == i + 1 < |order|
    ensures order[..c] == order[..a] + [order[a]] + order[a + 1..c]
    ensures (order[..a] + order[a + 1..])[..i] == order[..a] + order[a + 1..c]
    ensures order[a] !in order[..a] && order[a] !in order[a + 1..c]
  {
  }

  lemma PartsWithout(front: seq<int>, back: seq<int>, pid: int)
    requires pid !in front && pid !in back
    ensures Elems(front + back) == Elems(front + [pid] + back) - {pid}
  {
  }

  lemma TerminateRuns(b: Bank, t: Bank, order: seq<int>, pid: int, i: nat, j: nat)
    requires Shape(b) && Accounts(b.remain, b.alloc, b.need) && pid in b.alloc
    requires Enumerates(order, b.need.Keys) && Completes(order, b.remain, b.alloc, b.need)
    requires Accounts(t.remain, t.alloc, t.need) && t.remain == Plus(b.remain, b.alloc[pid])
    requires t.alloc == b.alloc - {pid} && t.need == b.need - {pid}
    requires Elems(Without(order, pid)) <= t.need.Keys && i < |Without(order, pid)| && j < |b.remain|
    ensures CanRun(Without(order, pid), i, j, t.remain, t.alloc, t.need)
  {
    var c := DropFromOrder(order, pid, i);
    var before := Elems(order[..c]);
    assert before <= Elems(order);
    assert CanRun(order, c, j, b.remain, b.alloc, b.need);
    TotalAgree(b.alloc, t.alloc, before - {pid}, j);
    TotalAtMost(b.alloc, before, pid, j);
    var p := order[c];
    assert p in Elems(order);
  }

  lemma TotalAtMost(alloc: Table, ps: set<int>, pid: int, j: nat)
    requires ps <= alloc.Keys && pid in alloc && (forall p :: p in alloc ==> j < |alloc[p]| && alloc[p][j] >= 0)
    ensures Total(alloc, ps, j) <= Total(alloc, ps - {pid}, j) + alloc[pid][j]
  {
    if pid in ps {
      TotalRemove(alloc, ps, pid, j);
    } else {
      assert ps - {pid} == ps;
    }
  }

  lemma TerminateSafe(b: Bank, pid: int)
    requires Inv(b) && pid in b.max
    ensures var t := Step(b, Terminate(pid));
            Accounts(t.remain, t.alloc, t.need) && Safe(t.remain, t.alloc, t.need)
  {
    var t := Step(b, Terminate(pid));
    var order :| Enumerates(order, b.need.Keys) && Completes(order, b.remain, b.alloc, b.need);
    var w := Without(order, pid);
    ElemsWithout(order, pid);
    assert Enumerates(w, t.need.Keys);
    forall i, j | 0 <= i < |w| && 0 <= j < |t.remain| ensures CanRun(w, i, j, t.remain, t.alloc, t.need) {
      TerminateRuns(b, t, order, pid, i, j);
    }
    assert Completes(w, t.remain, t.alloc, t.need);
  }

  lemma TerminateKeeps(b: Bank, pid: int)
    requires Inv(b) && pid in b.max
    ensures Inv(Step(b, Terminate(pid)))
  {
    var t := Step(b, Terminate(pid));
    TerminateSafe(b, pid);
    forall j | 0 <= j < |b.resource|
      ensures t.remain[j] + Total(t.alloc, t.alloc.Keys, j) == t.resource[j]
    {
      TotalRemove(b.alloc, b.alloc.Keys, pid, j);
      assert t.alloc.Keys == b.alloc.Keys - {pid};
      TotalAgree(b.alloc, t.alloc, t.alloc.Keys, j);
    }
  }

  // ----- runs -----

  lemma StepKeeps(b: Bank, c: Command)
    requires Inv(b) && Allowed(b, c)
    ensures Inv(Step(b, c)) && Step(b, c).resource == b.resource
  {
    match c
    case New(pid, req) =>
      if Admitted(b, pid, req) {
        NewKeeps(b, pid, req);
      }
    case Request(pid, req) =>
      if Granted(b, pid, req) {
        RequestKeeps(b, pid, req);
      }
    case Terminate(pid) =>
      if pid in b.max {
        TerminateKeeps(b, pid);
      }
    case Unknown(_, _) =>
  }

  function Opening(resource: Vec): Bank {
    Bank(resource, resource, map[], map[], map[])
  }

  lemma OpeningInv(resource: Vec)
    ensures Inv(Opening(resource))
  {
    var b := Opening(resource);
    assert Enumerates([], b.need.Keys);
    assert Completes([], b.remain, b.alloc, b.need);
  }

  /** Every command of the sequence respects the caller's side in the state it meets. */
  ghost predicate AllowedRun(b: Bank, cs: seq<Command>)
    requires Inv(b)
    decreases |cs|
  {
    cs == [] || (Allowed(b, cs[0]) && (StepKeeps(b, cs[0]); AllowedRun(Step(b, cs[0]), cs[1..])))
  }

  ghost function Run(b: Bank, cs: seq<Command>): (e: Bank)
    requires Inv(b) && AllowedRun(b, cs)
    ensures Inv(e) && e.resource == b.resource
    decreases |cs|
  {
    if cs == [] then b
    else StepKeeps(b, cs[0]); Run(Step(b, cs[0]), cs[1..])
  }

  /** Safety over every run from the initial state: resources are conserved, claims are respected
      and a completion order exists. */
  lemma EveryRunIsSafe(resource: Vec, cs: seq<Command>)
    requires (OpeningInv(resource); AllowedRun(Opening(resource), cs))
    ensures (OpeningInv(resource);
             var b := Run(Opening(resource), cs);
             && Shape(b) && Conserves(b) && Claims(b) && b.resource == resource
             && Accounts(b.remain, b.alloc, b.need) && Safe(b.remain, b.alloc, b.need))
  {
    OpeningInv(resource);
  }

  // ----- progress -----

  /** Once the first process of a safe order gets its whole need, the same order still works. */
  lemma WholeNeedSafe(b: Bank, order: seq<int>)
    requires Inv(b) && order != [] && Enumerates(order, b.need.Keys) && Completes(order, b.remain, b.alloc, b.need)
    ensures var p := order[0];
            && p in b.max && Granted(b, p, b.need[p])
  {
    var p := order[0];
    assert p in Elems(order);
    var req := b.need[p];
    var t := Tentative(b, p, req);
    TentativeAccounts(b, p, req);
    forall j | 0 <= j < |req| ensures req[j] <= b.remain[j] {
      assert CanRun(order, 0, j, b.remain, b.alloc, b.need);
      assert order[..0] == [];
    }
    assert Affordable(b, p, req);
    assert t.need.Keys == b.need.Keys;
    forall i, j | 0 <= i < |order| && 0 <= j < |t.remain| ensures CanRun(order, i, j, t.remain, t.alloc, t.need) {
      WholeNeedRuns(b, order, i, j);
    }
    assert Completes(order, t.remain, t.alloc, t.need);
  }

  lemma WholeNeedRuns(b: Bank, order: seq<int>, i: nat, j: nat)
    requires Shape(b) && Claims(b) && Accounts(b.remain, b.alloc, b.need)
    requires i < |order| && j < |b.remain| && order[0] in b.max && Fits(b.need[order[0]], b.remain)
    requires Enumerates(order, b.need.Keys) && Completes(order, b.remain, b.alloc, b.need)
    requires var t := Tentative(b, order[0], b.need[order[0]]);
             Accounts(t.remain, t.alloc, t.need) && t.need.Keys == b.need.Keys
    ensures var t := Tentative(b, order[0], b.need[order[0]]);
            CanRun(order, i, j, t.remain, t.alloc, t.need)
  {
    var p := order[0];
    var t := Tentative(b, p, b.need[p]);
    var before := Elems(order[..i]);
    assert before <= Elems(order);
    assert CanRun(order, i, j, b.remain, b.alloc, b.need);
    if i > 0 {
      assert order[..i][0] == p;
      TotalUpdate(b.alloc, before, p, t.alloc[p], j);
      var q := order[i];
      assert q != p && q in Elems(order);
    } else {
      assert before == {};
    }
  }

  /** No deadlock: while any process exists, some process would be granted all it may still ask for. */
  lemma NoDeadlock(b: Bank) returns (p: int)
    requires Inv(b) && b.max.Keys != {}
    ensures p in b.max && Granted(b, p, b.need[p])
  {
    var order :| Enumerates(order, b.need.Keys) && Completes(order, b.remain, b.alloc, b.need);
    var q := Choose(b.need.Keys);
    assert q in Elems(order);
    WholeNeedSafe(b, order);
    p := order[0];
  }

  lemma RunCons(b: Bank, c: Command, rest: seq<Command>)
    requires Inv(b) && Allowed(b, c) && Inv(Step(b, c)) && AllowedRun(Step(b, c), rest)
    ensures AllowedRun(b, [c] + rest) && Run(b, [c] + rest) == Run(Step(b, c), rest)
  {
    var cs := [c] + rest;
    assert cs[0] == c && cs[1..] == rest;
  }

  /** Granting a process its whole need and letting it go removes exactly that process. */
  lemma ServeOne(b: Bank, p: int)
    requires Inv(b) && p in b.max && Granted(b, p, b.need[p])
    ensures Allowed(b, Request(p, b.need[p])) && Inv(Step(b, Request(p, b.need[p])))
    ensures var b1 := Step(b, Request(p, b.need[p]));
            && Allowed(b1, Terminate(p)) && Inv(Step(b1, Terminate(p)))
            && Step(b1, Terminate(p)).max.Keys == b.max.Keys - {p}
            && Step(b1, Terminate(p)).need == b.need - {p}
            && Step(b1, Terminate(p)).resource == b.resource
  {
    var ask, leave := Request(p, b.need[p]), Terminate(p);
    StepKeeps(b, ask);
    StepKeeps(Step(b, ask), leave);
    var b2 := Step(Step(b, ask), leave);
    SameTable(b2.need, b.need - {p});
  }

  /** Command 2i grants process `p` everything it may still ask for, command 2i + 1 lets it go. */
  ghost predicate ServedAt(b: Bank, cs: seq<Command>, i: nat, p: int)
    requires Inv(b) && 2 * i + 1 < |cs|
  {
    && AllowedRun(b, cs[..2 * i])
    && var now := Run(b, cs[..2 * i]);
       && p in now.max && p in b.max && now.need[p] == b.need[p]
       && cs[2 * i] == Request(p, b.need[p]) && Granted(now, p, b.need[p])
       && cs[2 * i + 1] == Terminate(p)
  }

  /** Hence every reachable state can be wound up by serving everybody: some order of all processes
      exists in which each is granted its whole remaining need in the state it meets and then
      leaves; in the end the bank is empty and every resource is back. */
  lemma {:induction false} WindUp(b: Bank) returns (order: seq<int>, cs: seq<Command>)
    requires Inv(b)
    ensures Enumerates(order, b.max.Keys) && |cs| == 2 * |order| == 2 * |b.max|
    ensures AllowedRun(b, cs) && forall i :: 0 <= i < |order| ==> ServedAt(b, cs, i, order[i])
    ensures Run(b, cs).max.Keys == {} && Run(b, cs).remain == b.resource
  {
    order, cs := ServeAll(b);
    EmptyBank(Run(b, cs));
    DistinctCard(order);
  }

  lemma {:induction false} ServeAll(b: Bank) returns (order: seq<int>, cs: seq<Command>)
    requires Inv(b)
    ensures Enumerates(order, b.max.Keys) && |cs| == 2 * |order|
    ensures AllowedRun(b, cs) && Run(b, cs).max.Keys == {}
    ensures forall i :: 0 <= i < |order| ==> ServedAt(b, cs, i, order[i])
    decreases |b.max.Keys|
  {
    if b.max.Keys == {} {
      order, cs := [], [];
      assert Elems([]) == {};
    } else {
      var p := NoDeadlock(b);
      GoneFewer(b, p);
      var others, rest := ServeAll(Gone(b, p));
      order, cs := [p] + others, Serving(b, p) + rest;
      ServeFirst(b, p, others);
      ServedRun(b, p, rest);
      ServedInTurn(b, p, others, rest);
    }
  }

  lemma GoneFewer(b: Bank, p: int)
    requires Inv(b) && p in b.max && Granted(b, p, b.need[p])
    ensures |Gone(b, p).max.Keys| < |b.max.Keys|
  {
    var ps := b.max.Keys;
    assert |ps - {p}| == |ps| - 1;
  }

  lemma ServeFirst(b: Bank, p: int, others: seq<int>)
    requires Inv(b) && p in b.max && Granted(b, p, b.need[p]) && Enumerates(others, Gone(b, p).max.Keys)
    ensures Enumerates([p] + others, b.max.Keys)
  {
    EnumeratesFirst(others, b.max.Keys - {p}, p);
    assert b.max.Keys == (b.max.Keys - {p}) + {p};
  }

  /** The two commands that serve a process. */
  function Serving(b: Bank, p: int): seq<Command>
    requires p in b.need
  {
    [Request(p, b.need[p]), Terminate(p)]
  }

  /** The bank after a process has been served. */
  ghost function Gone(b: Bank, p: int): (r: Bank)
    requires Inv(b) && p in b.max && Granted(b, p, b.need[p])
    ensures Inv(r) && r.max.Keys == b.max.Keys - {p} && r.need == b.need - {p} && r.resource == b.resource
  {
    ServeOne(b, p);
    Step(Step(b, Request(p, b.need[p])), Terminate(p))
  }

  lemma ServedRun(b: Bank, p: int, rest: seq<Command>)
    requires Inv(b) && p in b.max && Granted(b, p, b.need[p]) && AllowedRun(Gone(b, p), rest)
    ensures AllowedRun(b, Serving(b, p) + rest) && Run(b, Serving(b, p) + rest) == Run(Gone(b, p), rest)
  {
    ServeOne(b, p);
    var ask, leave := Request(p, b.need[p]), Terminate(p);
    RunCons(Step(b, ask), leave, rest);
    RunCons(b, ask, [leave] + rest);
    assert Serving(b, p) + rest == [ask] + ([leave] + rest);
  }

  lemma ServedInTurn(b: Bank, p: int, others: seq<int>, rest: seq<Command>)
    requires Inv(b) && p in b.max && Granted(b, p, b.need[p]) && |rest| == 2 * |others|
    requires forall i :: 0 <= i < |others| ==> ServedAt(Gone(b, p), rest, i, others[i])
    ensures |Serving(b, p) + rest| == 2 * |[p] + others|
    ensures forall i :: 0 <= i < |[p] + others| ==> ServedAt(b, Serving(b, p) + rest, i, ([p] + others)[i])
  {
    var order, cs := [p] + others, Serving(b, p) + rest;
    forall i | 0 <= i < |order| ensures ServedAt(b, cs, i, order[i]) {
      var q := order[i];
      if i == 0 {
        ServedNow(b, p, rest, cs);
      } else {
        assert q == others[i - 1];
        ServedLater(b, p, rest, cs, i, q);
      }
    }
  }

  lemma ServedNow(b: Bank, p: int, rest: seq<Command>, cs: seq<Command>)
    requires Inv(b) && p in b.max && Granted(b, p, b.need[p]) && cs == Serving(b, p) + rest
    ensures ServedAt(b, cs, 0, p)
  {
    assert cs[..0] == [];
  }

  lemma EnumeratesFirst(order: seq<int>, ps: set<int>, p: int)
    requires Enumerates(order, ps) && p !in ps
    ensures Enumerates([p] + order, ps + {p})
  {
    ElemsConcat([p], order);
    assert Elems([p]) == {p};
    assert forall q :: q in order ==> q in Elems(order);
  }

  /** Serving one process first shifts the service of the others. */
  lemma ServedLater(b: Bank, p: int, rest: seq<Command>, cs: seq<Command>, i: nat, q: int)
    requires Inv(b) && p in b.max && Granted(b, p, b.need[p]) && cs == Serving(b, p) + rest
    requires 0 < i && 2 * i - 1 < |rest| && ServedAt(Gone(b, p), rest, i - 1, q)
    ensures ServedAt(b, cs, i, q)
  {
    var front := rest[..2 * (i - 1)];
    ServedRun(b, p, front);
    TwoMore(Serving(b, p), rest, cs, i);
  }

  lemma TwoMore(two: seq<Command>, rest: seq<Command>, cs: seq<Command>, i: nat)
    requires |two| == 2 && cs == two + rest && 0 < i && 2 * i - 1 < |rest|
    ensures cs[..2 * i] == two + rest[..2 * (i - 1)]
    ensures cs[2 * i] == rest[2 * (i - 1)] && cs[2 * i + 1] == rest[2 * (i - 1) + 1]
  {
  }

  lemma EmptyBank(b: Bank)
    requires Inv(b) && b.max.Keys == {}
    ensures b.remain == b.resource
  {
    assert b.alloc.Keys == {};
    assert forall j :: 0 <= j < |b.resource| ==> b.remain[j] + Total(b.alloc, {}, j) == b.resource[j];
  }
}
