/** The banker program (lab7/banker.cpp): global tables changed in loops, proved against the
    state machine of BankerSpec. Map iteration is in no particular order throughout. */
module Banker {
  import opened BankerSpec
  import opened Lists
  import opened Sets

  // ----- the greedy check -----

  /** The processes finished so far, in the order they finished, and the resources they freed. */
  ghost predicate Progress(done: seq<int>, work0: Vec, work: Vec, alloc: Table, need: Table) {
    && Accounts(work0, alloc, need) && |work| == |work0|
    && Distinct(done) && Elems(done) <= need.Keys
    && Completes(done, work0, alloc, need)
    && forall j :: 0 <= j < |work| ==> work[j] == work0[j] + Total(alloc, Elems(done), j)
  }

  lemma FinishOne(done: seq<int>, work0: Vec, work: Vec, alloc: Table, need: Table, p: int)
    requires Progress(done, work0, work, alloc, need) && p in need && p !in done && Fits(need[p], work)
    ensures Progress(done + [p], work0, Plus(work, alloc[p]), alloc, need)
  {
    var d := done + [p];
    InitElems(done, p);
    forall i, j | 0 <= i < |d| && 0 <= j < |work0| ensures CanRun(d, i, j, work0, alloc, need) {
      assert d[..i] == done[..i];
      if i < |done| {
        assert CanRun(done, i, j, work0, alloc, need);
      } else {
        assert done[..i] == done;
      }
    }
    forall j | 0 <= j < |work0| ensures Plus(work, alloc[p])[j] == work0[j] + Total(alloc, Elems(d), j) {
      TotalRemove(alloc, Elems(d), p, j);
      assert Elems(d) - {p} == Elems(done);
    }
  }

  /** The first process of `order` that is missing from `done`. */
  lemma FirstMissing(order: seq<int>, done: seq<int>) returns (i: nat)
    requires !(Elems(order) <= Elems(done))
    ensures i < |order| && order[i] !in done && Elems(order[..i]) <= Elems(done)
  {
    i := 0;
    while order[i] in done
      invariant i < |order| && Elems(order[..i]) <= Elems(done)
      invariant !(Elems(order[i..]) <= Elems(done))
      decreases |order| - i
    {
      var x := order[i];
      assert order[i..] == [x] + order[i + 1..];
      assert order[..i + 1] == order[..i] + [x];
      i := i + 1;
    }
  }

  /** If no unfinished process fits, no completion order exists at all: greed loses nothing. */
  lemma StuckIsUnsafe(done: seq<int>, work0: Vec, work: Vec, alloc: Table, need: Table)
    requires Progress(done, work0, work, alloc, need) && Elems(done) != need.Keys
    requires forall p :: p in need && p !in done ==> !Fits(need[p], work)
    ensures !Safe(work0, alloc, need)
  {
    forall order | Enumerates(order, need.Keys) ensures !Completes(order, work0, alloc, need) {
      var i := FirstMissing(order, done);
      var p := order[i];
      assert p in Elems(order);
      var j :| 0 <= j < |work| && need[p][j] > work[j];
      TotalSubset(alloc, Elems(order[..i]), Elems(done), j);
      assert !CanRun(order, i, j, work0, alloc, need);
    }
  }

  /** The innermost test loop. */
  method FitsIn(need: Vec, work: Vec) returns (flag: bool)
    requires |need| == |work|
    ensures flag <==> Fits(need, work)
  {
    flag := true;
    for j := 0 to |work|
      invariant flag
      invariant forall i :: 0 <= i < j ==> need[i] <= work[i]
    {
      if need[j] > work[j] {
        flag := false;
        break;
      }
    }
  }

  /** Elementwise update loops. */
  method AddInto(a: Vec, b: Vec) returns (v: Vec)
    requires |a| == |b|
    ensures v == Plus(a, b)
  {
    v := a;
    for j := 0 to |a|
      invariant |v| == |a|
      invariant forall i :: 0 <= i < j ==> v[i] == a[i] + b[i]
      invariant forall i :: j <= i < |a| ==> v[i] == a[i]
    {
      v := v[j := v[j] + b[j]];
    }
  }

  method TakeFrom(a: Vec, b: Vec) returns (v: Vec)
    requires |a| == |b|
    ensures v == Minus(a, b)
  {
    v := a;
    for j := 0 to |a|
      invariant |v| == |a|
      invariant forall i :: 0 <= i < j ==> v[i] == a[i] - b[i]
      invariant forall i :: j <= i < |a| ==> v[i] == a[i]
    {
      v := v[j := v[j] - b[j]];
    }
  }

  /** The commit loops: overwrite every entry of `dst` with that of `src`. */
  method CopyEntries<K(==), V>(dst: map<K, V>, src: map<K, V>) returns (t: map<K, V>)
    requires dst.Keys == src.Keys
    ensures t == src
  {
    t := dst;
    var todo := src.Keys;
    while todo != {}
      invariant todo <= src.Keys && t.Keys == src.Keys
      invariant forall p :: p in src.Keys - todo ==> t[p] == src[p]
      decreases |todo|
    {
      var p := Pick(todo);
      t := t[p := src[p]];
      todo := todo - {p};
    }
  }

  /** The loop building a tentative table: a copy of `t` with the requester's entry changed. */
  method CopyWith<K(==), V>(t: map<K, V>, pid: K, v: V) returns (u: map<K, V>)
    requires pid in t
    ensures u == t[pid := v]
  {
    u := map[];
    ghost var target := t[pid := v];
    assert target.Keys == t.Keys;
    var todo := t.Keys;
    while todo != {}
      invariant todo <= target.Keys && u.Keys == target.Keys - todo
      invariant forall p :: p in u ==> u[p] == target[p]
      decreases |todo|
    {
      var p := Pick(todo);
      var w := if p == pid then v else t[p];
      assert w == target[p];
      u := u[p := w];
      todo := todo - {p};
    }
    assert u.Keys == target.Keys;
  }

  /** One pass over the processes: finish, in place, everyone who fits. */
  method Pass(work0: Vec, work: Vec, alloc: Table, need: Table, finish: set<int>, ghost done: seq<int>)
      returns (work': Vec, finish': set<int>, any: bool, ghost done': seq<int>)
    requires Progress(done, work0, work, alloc, need) && finish == Elems(done)
    ensures Progress(done', work0, work', alloc, need) && finish' == Elems(done')
    ensures any ==> |done'| > |done|
    ensures finish <= finish' && (any <==> finish' != finish) && (!any ==> work' == work)
    ensures !any ==> done' == done && forall p :: p in need && p !in done' ==> !Fits(need[p], work')
  {
    work', finish', any, done' := work, finish, false, done;
    var todo := need.Keys;
    while todo != {}
      invariant todo <= need.Keys
      invariant Progress(done', work0, work', alloc, need) && finish' == Elems(done')
      invariant any ==> |done'| > |done|
      invariant finish <= finish' && (any <==> finish' != finish) && (!any ==> work' == work)
      invariant !any ==> done' == done && forall p :: p in need.Keys - todo && p !in done' ==> !Fits(need[p], work')
      decreases |todo|
    {
      var p := Pick(todo);
      todo := todo - {p};
      if p !in finish' {
        var flag := FitsIn(need[p], work');
        if flag {
          any := true;
          FinishOne(done', work0, work', alloc, need, p);
          work' := AddInto(work', alloc[p]);
          finish' := finish' + {p};
          InitElems(done', p);
          done' := done' + [p];
        }
      }
    }
  }

  /** The decision of `safe_check`: at most one pass per process, stopping early after an idle
      pass; true exactly when some completion order exists. */
  method IsSafe(work0: Vec, alloc: Table, need: Table) returns (ok: bool)
    requires Accounts(work0, alloc, need)
    ensures ok <==> Safe(work0, alloc, need)
  {
    var work, finish: set<int> := work0, {};
    ghost var done: seq<int> := [];
    assert Elems(done) == {};
    var any := true;
    var i := 0;
    while i < |need| && any
      invariant Progress(done, work0, work, alloc, need) && finish == Elems(done)
      invariant i <= |need|
      invariant any ==> |done| >= i
      invariant !any ==> forall p :: p in need && p !in done ==> !Fits(need[p], work)
      decreases |need| - i
    {
      work, finish, any, done := Pass(work0, work, alloc, need, finish, done);
      i := i + 1;
    }
    ok := need.Keys <= finish;
    DistinctCard(done);
    if ok {
      assert Enumerates(done, need.Keys);
    } else {
      assert !any by {
        if any {
          SubsetCard(Elems(done), need.Keys);
        }
      }
      StuckIsUnsafe(done, work0, work, alloc, need);
    }
  }

  /** What a request comes to, field by field. */
  lemma RequestIs(b: Bank, pid: int, req: Vec)
    requires Inv(b) && pid in b.max && |req| == |b.resource| && NonNegative(req)
    ensures var t := Tentative(b, pid, req);
            && Accounts(t.remain, t.alloc, t.need)
            && (Granted(b, pid, req) <==> Affordable(b, pid, req) && Safe(t.remain, t.alloc, t.need))
            && Step(b, Request(pid, req)) == if Granted(b, pid, req) then t else b
  {
    TentativeAccounts(b, pid, req);
  }

  // ----- the program's globals and its command loop -----

  class Program {
    const resource: Vec
    var remain: Vec
    var max: Table
    var alloc: Table
    var need: Table
    var req: Vec

    ghost function State(): Bank
      reads this
    {
      Bank(resource, remain, max, alloc, need)
    }

    ghost predicate Valid()
      reads this
    {
      Inv(State()) && |resource| >= 1
    }

    constructor (amounts: Vec)
      requires |amounts| >= 1
      ensures Valid() && State() == Opening(amounts)
    {
      resource, remain, req := amounts, amounts, Zero(|amounts|);
      max, alloc, need := map[], map[], map[];
      new;
      OpeningInv(amounts);
    }

    /** `recycle`. */
    method Recycle(pid: int)
      requires Valid() && pid in max
      modifies this`remain, this`max, this`alloc, this`need
      ensures Valid() && State() == Step(old(State()), Terminate(pid))
    {
      StepKeeps(State(), Terminate(pid));
      remain := AddInto(remain, alloc[pid]);
      max, alloc, need := max - {pid}, alloc - {pid}, need - {pid};
    }

    /** `safe_check`: decide on the tentative tables and, if safe, commit them entry by entry. */
    method SafeCheck(tmpAlloc: Table, tmpNeed: Table) returns (ok: bool)
      requires |req| == |remain| && alloc.Keys == need.Keys == tmpAlloc.Keys
      requires Accounts(Minus(remain, req), tmpAlloc, tmpNeed)
      modifies this`remain, this`alloc, this`need
      ensures ok <==> Safe(Minus(old(remain), req), tmpAlloc, tmpNeed)
      ensures ok ==> remain == Minus(old(remain), req) && alloc == tmpAlloc && need == tmpNeed
      ensures !ok ==> remain == old(remain) && alloc == old(alloc) && need == old(need)
    {
      var work := TakeFrom(remain, req);
      ok := IsSafe(work, tmpAlloc, tmpNeed);
      if ok {
        remain := TakeFrom(remain, req);
        alloc := CopyEntries(alloc, tmpAlloc);
        need := CopyEntries(need, tmpNeed);
      }
    }

    /** The first loop of `request_judge`: claim and free resources suffice. */
    method IsAffordable(pid: int) returns (ok: bool)
      requires Shape(State()) && pid in max && |req| == |resource|
      ensures ok <==> Affordable(State(), pid, req)
    {
      ok := true;
      for i := 0 to |req|
        invariant ok
        invariant forall j :: 0 <= j < i ==> req[j] + alloc[pid][j] <= max[pid][j] && req[j] <= remain[j]
      {
        if max[pid][i] < req[i] + alloc[pid][i] || req[i] > remain[i] {
          ok := false;
          assert Plus(req, alloc[pid])[i] > max[pid][i] || req[i] > remain[i];
          return;
        }
      }
    }

    /** `request_judge`. */
    method RequestJudge(pid: int) returns (ok: bool)
      requires Valid() && pid in max && |req| == |resource| && NonNegative(req)
      modifies this`remain, this`alloc, this`need
      ensures ok <==> old(Granted(State(), pid, req))
      ensures Valid() && State() == old(Step(State(), Request(pid, req)))
    {
      StepKeeps(State(), Request(pid, req));
      RequestIs(State(), pid, req);
      ok := IsAffordable(pid);
      if ok {
        ok := TryTentative(pid);
      }
    }

    /** The second part of `request_judge`: the tentative tables, committed if they are safe. */
    method TryTentative(pid: int) returns (ok: bool)
      requires Shape(State()) && pid in max && |req| == |resource|
      requires var t := Tentative(State(), pid, req); Accounts(t.remain, t.alloc, t.need)
      modifies this`remain, this`alloc, this`need
      ensures var t := old(Tentative(State(), pid, req));
              && (ok <==> Safe(t.remain, t.alloc, t.need))
              && State() == if ok then t else old(State())
    {
      var more := AddInto(alloc[pid], req);
      var less := TakeFrom(need[pid], req);
      var tmpAlloc := CopyWith(alloc, pid, more);
      var tmpNeed := CopyWith(need, pid, less);
      ok := SafeCheck(tmpAlloc, tmpNeed);
    }

    /** `new_judge`. */
    method NewJudge(pid: int) returns (ok: bool)
      requires |req| == |resource|
      ensures ok <==> Admitted(State(), pid, req)
    {
      if pid in max {
        return false;
      }
      ok := FitsIn(req, resource);
    }

    /** `new_process`. */
    method NewProcess(pid: int)
      requires Valid() && |req| == |resource| && NonNegative(req) && Admitted(State(), pid, req)
      modifies this`max, this`alloc, this`need
      ensures Valid() && State() == old(Step(State(), New(pid, req)))
    {
      StepKeeps(State(), New(pid, req));
      max, need, alloc := max[pid := req], need[pid := req], alloc[pid := Zero(|req|)];
    }

    /** One turn of the command loop; `ok` is the printed answer. */
    method Execute(c: Command) returns (ok: bool)
      requires Valid() && Allowed(State(), c)
      modifies this
      ensures Valid() && State() == old(Step(State(), c))
      ensures !ok ==> State() == old(State())
      ensures c.Request? ==> (ok <==> old(Granted(State(), c.pid, c.req)))
      ensures c.New? ==> (ok <==> old(Admitted(State(), c.pid, c.req)))
      ensures c.Terminate? ==> (ok <==> old(c.pid in max))
    {
      ok := false;
      match c
      case Terminate(pid) =>
        if pid in max {
          Recycle(pid);
          ok := true;
        }
      case Request(pid, amounts) =>
        req := amounts;
        ok := RequestJudge(pid);
      case New(pid, amounts) =>
        req := amounts;
        ok := NewJudge(pid);
        if ok {
          NewProcess(pid);
        }
      case Unknown(_, amounts) =>
        req := amounts;
    }
  }
}
