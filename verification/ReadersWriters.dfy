/** Readers and writers over two semaphores (lab6/reader-writer): any number of threads, any
    interleaving, with the increments of the shared counters split into load and store. */
module ReadersWriters {

  /** Where a thread stands; a name says what it does next. */
  datatype Pc =
    // reader
    | RWaitRc1            // sem_wait(&rc)
    | RLoad1              // read readcount for readcount++
    | RStore1(reg: int)   // write readcount, then test the old value
    | RWaitDb             // sem_wait(&db), first reader only
    | RPost1              // sem_post(&rc)
    | RRead               // print *buffer
    | RWaitRc2            // sem_wait(&rc)
    | RLoad2              // read readcount for --readcount
    | RStore2(reg: int)   // write readcount, then test the new value
    | RPostDb             // sem_post(&db), last reader only
    | RPost2              // sem_post(&rc)
    // writer
    | WWaitDb             // sem_wait(&db)
    | WLoad               // read *buffer for (*buffer)++
    | WStore(reg: int)    // write *buffer
    | WPrint              // print *buffer
    | WPost               // sem_post(&db)
    | Done(writer: bool)

  datatype State = State(db: nat, rc: nat, readcount: int, buffer: int, pcs: seq<Pc>)

  /** `main`: both semaphores at 1, everything else at 0. */
  predicate Init(s: State) {
    && s.db == 1 && s.rc == 1 && s.readcount == 0 && s.buffer == 0
    && forall t :: 0 <= t < |s.pcs| ==> s.pcs[t] == RWaitRc1 || s.pcs[t] == WWaitDb
  }

  function Go(s: State, t: nat, pc: Pc): State
    requires t < |s.pcs|
  {
    s.(pcs := s.pcs[t := pc])
  }

  /** Thread `t` can move: it is not finished and not blocked on a semaphore. */
  predicate Enabled(s: State, t: nat)
    requires t < |s.pcs|
  {
    match s.pcs[t]
    case RWaitRc1 => s.rc > 0
    case RWaitRc2 => s.rc > 0
    case RWaitDb => s.db > 0
    case WWaitDb => s.db > 0
    case Done(_) => false
    case _ => true
  }

  function Step(s: State, t: nat): State
    requires t < |s.pcs| && Enabled(s, t)
  {
    match s.pcs[t]
    case RWaitRc1 => Go(s.(rc := s.rc - 1), t, RLoad1)
    case RLoad1 => Go(s, t, RStore1(s.readcount))
    case RStore1(reg) => Go(s.(readcount := reg + 1), t, if reg == 0 then RWaitDb else RPost1)
    case RWaitDb => Go(s.(db := s.db - 1), t, RPost1)
    case RPost1 => Go(s.(rc := s.rc + 1), t, RRead)
    case RRead => Go(s, t, RWaitRc2)
    case RWaitRc2 => Go(s.(rc := s.rc - 1), t, RLoad2)
    case RLoad2 => Go(s, t, RStore2(s.readcount))
    case RStore2(reg) => Go(s.(readcount := reg - 1), t, if reg - 1 == 0 then RPostDb else RPost2)
    case RPostDb => Go(s.(db := s.db + 1), t, RPost2)
    case RPost2 => Go(s.(rc := s.rc + 1), t, Done(false))
    case WWaitDb => Go(s.(db := s.db - 1), t, WLoad)
    case WLoad => Go(s, t, WStore(s.buffer))
    case WStore(reg) => Go(s.(buffer := reg + 1), t, WPrint)
    case WPrint => Go(s, t, WPost)
    case WPost => Go(s.(db := s.db + 1), t, Done(true))
  }

  // ----- regions of the two programs -----

  datatype Region = InRc | Counted | FirstWaits | LastPosts | Writing | Wrote

  predicate In(r: Region, pc: Pc) {
    match r
    // between sem_wait(&rc) and sem_post(&rc)
    case InRc =>
      || pc.RLoad1? || pc.RStore1? || pc.RWaitDb? || pc.RPost1?
      || pc.RLoad2? || pc.RStore2? || pc.RPostDb? || pc.RPost2?
    // has stored the increment of readcount and not yet the decrement
    case Counted => pc.RWaitDb? || Inside(pc)
    case FirstWaits => pc.RWaitDb?
    case LastPosts => pc.RPostDb?
    // between sem_wait(&db) and sem_post(&db), as a writer
    case Writing => pc.WLoad? || pc.WStore? || pc.WPrint? || pc.WPost?
    // a writer that has stored its increment
    case Wrote => pc.WPrint? || pc.WPost? || pc == Done(true)
  }

  /** A reader that has been let in. */
  predicate Inside(pc: Pc) {
    pc.RPost1? || pc.RRead? || pc.RWaitRc2? || pc.RLoad2? || pc.RStore2?
  }

  predicate IsWriter(pc: Pc) {
    pc.WWaitDb? || In(Writing, pc) || pc == Done(true)
  }

  /** How many threads are in a region. */
  function Count(r: Region, pcs: seq<Pc>): nat {
    if pcs == [] then 0 else Count(r, pcs[..|pcs| - 1]) + if In(r, pcs[|pcs| - 1]) then 1 else 0
  }

  lemma {:induction false} CountUpdate(r: Region, pcs: seq<Pc>, t: nat, pc: Pc)
    requires t < |pcs|
    ensures Count(r, pcs[t := pc]) == Count(r, pcs) - (if In(r, pcs[t]) then 1 else 0) + (if In(r, pc) then 1 else 0)
  {
    var n := |pcs| - 1;
    if t == n {
      assert pcs[t := pc][..n] == pcs[..n];
    } else {
      CountUpdate(r, pcs[..n], t, pc);
      assert pcs[t := pc][..n] == pcs[..n][t := pc];
    }
  }

  lemma {:induction false} CountSome(r: Region, pcs: seq<Pc>) returns (t: nat)
    requires Count(r, pcs) > 0
    ensures t < |pcs| && In(r, pcs[t])
  {
    var n := |pcs| - 1;
    if In(r, pcs[n]) {
      t := n;
    } else {
      t := CountSome(r, pcs[..n]);
    }
  }

  lemma {:induction false} CountOne(r: Region, pcs: seq<Pc>, t: nat)
    requires t < |pcs| && In(r, pcs[t])
    ensures Count(r, pcs) >= 1
  {
    var n := |pcs| - 1;
    if t < n {
      assert pcs[..n][t] == pcs[t];
      CountOne(r, pcs[..n], t);
    }
  }

  lemma {:induction false} CountTwo(r: Region, pcs: seq<Pc>, t: nat, u: nat)
    requires t < u < |pcs| && In(r, pcs[t]) && In(r, pcs[u])
    ensures Count(r, pcs) >= 2
  {
    var n := |pcs| - 1;
    assert pcs[..n][t] == pcs[t];
    if u == n {
      CountOne(r, pcs[..n], t);
    } else {
      assert pcs[..n][u] == pcs[u];
      CountTwo(r, pcs[..n], t, u);
    }
  }

  /** Two different threads in a region of size at most one do not exist. */
  lemma AtMostOne(r: Region, pcs: seq<Pc>, t: nat, u: nat)
    requires t < |pcs| && u < |pcs| && In(r, pcs[t]) && In(r, pcs[u]) && Count(r, pcs) <= 1
    ensures t == u
  {
    if t < u {
      CountTwo(r, pcs, t, u);
    } else if u < t {
      CountTwo(r, pcs, u, t);
    }
  }

  lemma {:induction false} CountNone(r: Region, pcs: seq<Pc>)
    requires forall t :: 0 <= t < |pcs| ==> !In(r, pcs[t])
    ensures Count(r, pcs) == 0
  {
    if pcs != [] {
      CountNone(r, pcs[..|pcs| - 1]);
    }
  }

  // ----- the invariant -----

  /** The readers as a group hold db: someone is counted and nobody of them still waits for it. */
  function GroupHolds(s: State): nat {
    if s.readcount > 0 && Count(FirstWaits, s.pcs) == 0 then 1 else 0
  }

  /** A value loaded for an update is still current when it is stored. */
  predicate FreshReg(s: State, pc: Pc) {
    match pc
    case RStore1(reg) => reg == s.readcount
    case RStore2(reg) => reg == s.readcount
    case WStore(reg) => reg == s.buffer
    case _ => true
  }

  ghost predicate Inv(s: State) {
    && s.rc + Count(InRc, s.pcs) == 1
    && s.readcount == Count(Counted, s.pcs)
    && s.db + Count(Writing, s.pcs) + Count(LastPosts, s.pcs) + GroupHolds(s) == 1
    && (Count(FirstWaits, s.pcs) > 0 ==> s.readcount == 1)
    && (Count(LastPosts, s.pcs) > 0 ==> s.readcount == 0)
    && s.buffer == Count(Wrote, s.pcs)
    && forall t :: 0 <= t < |s.pcs| ==> FreshReg(s, s.pcs[t])
  }

  lemma InitInv(s: State)
    requires Init(s)
    ensures Inv(s)
  {
    CountNone(InRc, s.pcs);
    CountNone(Counted, s.pcs);
    CountNone(FirstWaits, s.pcs);
    CountNone(LastPosts, s.pcs);
    CountNone(Writing, s.pcs);
    CountNone(Wrote, s.pcs);
  }

  /** Every count after a step, from the counts before it. */
  lemma StepCounts(s: State, t: nat)
    requires t < |s.pcs| && Enabled(s, t)
    ensures var s' := Step(s, t);
            && |s'.pcs| == |s.pcs| && s'.pcs == s.pcs[t := s'.pcs[t]]
            && forall r :: Count(r, s'.pcs)
                 == Count(r, s.pcs) - (if In(r, s.pcs[t]) then 1 else 0) + (if In(r, s'.pcs[t]) then 1 else 0)
  {
    var s' := Step(s, t);
    forall r
      ensures Count(r, s'.pcs)
              == Count(r, s.pcs) - (if In(r, s.pcs[t]) then 1 else 0) + (if In(r, s'.pcs[t]) then 1 else 0)
    {
      CountUpdate(r, s.pcs, t, s'.pcs[t]);
    }
  }

  /** What thread `t` being in a region says about the counts. */
  lemma Mine(s: State, t: nat)
    requires t < |s.pcs|
    ensures forall r :: In(r, s.pcs[t]) ==> Count(r, s.pcs) >= 1
  {
    forall r | In(r, s.pcs[t]) ensures Count(r, s.pcs) >= 1 {
      CountOne(r, s.pcs, t);
    }
  }

  lemma StepRcInv(s: State, t: nat)
    requires t < |s.pcs| && Enabled(s, t) && s.rc + Count(InRc, s.pcs) == 1
    ensures Step(s, t).rc + Count(InRc, Step(s, t).pcs) == 1
  {
    CountUpdate(InRc, s.pcs, t, Step(s, t).pcs[t]);
  }

  lemma StepReadcountInv(s: State, t: nat)
    requires t < |s.pcs| && Enabled(s, t) && s.readcount == Count(Counted, s.pcs) && FreshReg(s, s.pcs[t])
    ensures Step(s, t).readcount == Count(Counted, Step(s, t).pcs)
  {
    CountUpdate(Counted, s.pcs, t, Step(s, t).pcs[t]);
  }

  lemma StepBufferInv(s: State, t: nat)
    requires t < |s.pcs| && Enabled(s, t) && s.buffer == Count(Wrote, s.pcs) && FreshReg(s, s.pcs[t])
    ensures Step(s, t).buffer == Count(Wrote, Step(s, t).pcs)
  {
    CountUpdate(Wrote, s.pcs, t, Step(s, t).pcs[t]);
  }

  lemma StepDbInv(s: State, t: nat)
    requires Inv(s) && t < |s.pcs| && Enabled(s, t)
    ensures var s' := Step(s, t);
            && s'.db + Count(Writing, s'.pcs) + Count(LastPosts, s'.pcs) + GroupHolds(s') == 1
            && (Count(FirstWaits, s'.pcs) > 0 ==> s'.readcount == 1)
            && (Count(LastPosts, s'.pcs) > 0 ==> s'.readcount == 0)
  {
    if In(InRc, s.pcs[t]) {
      StepDbInside(s, t);
    } else {
      StepDbOutside(s, t);
    }
  }

  /** Inside the rc section. */
  lemma StepDbInside(s: State, t: nat)
    requires Inv(s) && t < |s.pcs| && Enabled(s, t) && In(InRc, s.pcs[t])
    ensures var s' := Step(s, t);
            && s'.db + Count(Writing, s'.pcs) + Count(LastPosts, s'.pcs) + GroupHolds(s') == 1
            && (Count(FirstWaits, s'.pcs) > 0 ==> s'.readcount == 1)
            && (Count(LastPosts, s'.pcs) > 0 ==> s'.readcount == 0)
  {
    StepCounts(s, t);
    Mine(s, t);
    assert FreshReg(s, s.pcs[t]);
    OnlyMe(s, t);
  }

  /** Outside the rc section. */
  lemma StepDbOutside(s: State, t: nat)
    requires Inv(s) && t < |s.pcs| && Enabled(s, t) && !In(InRc, s.pcs[t])
    ensures var s' := Step(s, t);
            && s'.db + Count(Writing, s'.pcs) + Count(LastPosts, s'.pcs) + GroupHolds(s') == 1
            && (Count(FirstWaits, s'.pcs) > 0 ==> s'.readcount == 1)
            && (Count(LastPosts, s'.pcs) > 0 ==> s'.readcount == 0)
  {
    StepCounts(s, t);
    Mine(s, t);
    assert FreshReg(s, s.pcs[t]);
  }

  /** Inside the rc section a thread is alone there, so nobody else waits for or posts db as a reader. */
  lemma OnlyMe(s: State, t: nat)
    requires Inv(s) && t < |s.pcs| && In(InRc, s.pcs[t])
    ensures s.rc == 0
    ensures Count(FirstWaits, s.pcs) == if s.pcs[t].RWaitDb? then 1 else 0
    ensures Count(LastPosts, s.pcs) == if s.pcs[t].RPostDb? then 1 else 0
  {
    CountOne(InRc, s.pcs, t);
    SubCount(FirstWaits, s.pcs, t);
    SubCount(LastPosts, s.pcs, t);
  }

  /** A region inside the rc section holds at most the one thread that is in it. */
  lemma SubCount(r: Region, pcs: seq<Pc>, t: nat)
    requires (r == FirstWaits || r == LastPosts) && t < |pcs| && In(InRc, pcs[t]) && Count(InRc, pcs) == 1
    ensures Count(r, pcs) == if In(r, pcs[t]) then 1 else 0
  {
    var gone := pcs[t := Done(false)];
    CountUpdate(InRc, pcs, t, Done(false));
    CountUpdate(r, pcs, t, Done(false));
    if Count(r, gone) > 0 {
      var u := CountSome(r, gone);
      CountOne(InRc, gone, u);
    }
  }

  /** Registers stay current: whoever changes a counter is alone with it. */
  lemma StepRegsInv(s: State, t: nat)
    requires Inv(s) && t < |s.pcs| && Enabled(s, t)
    ensures var s' := Step(s, t);
            forall u :: 0 <= u < |s'.pcs| ==> FreshReg(s', s'.pcs[u])
  {
    var s' := Step(s, t);
    forall u | 0 <= u < |s'.pcs| ensures FreshReg(s', s'.pcs[u]) {
      assert FreshReg(s, s.pcs[u]);
      if u != t {
        assert s'.pcs[u] == s.pcs[u];
        if s.readcount != s'.readcount && In(InRc, s.pcs[u]) {
          AtMostOne(InRc, s.pcs, t, u);
        }
        if s.buffer != s'.buffer && In(Writing, s.pcs[u]) {
          AtMostOne(Writing, s.pcs, t, u);
        }
      }
    }
  }

  /** Every step of every thread keeps the invariant. */
  lemma StepInv(s: State, t: nat)
    requires Inv(s) && t < |s.pcs| && Enabled(s, t)
    ensures Inv(Step(s, t))
  {
    StepRcInv(s, t);
    StepReadcountInv(s, t);
    StepBufferInv(s, t);
    StepDbInv(s, t);
    StepRegsInv(s, t);
  }

  // ----- mutual exclusion -----

  /** While a writer writes, no reader is inside and no other writer writes. */
  lemma Exclusion(s: State, w: nat, u: nat)
    requires Inv(s) && w < |s.pcs| && u < |s.pcs| && u != w && In(Writing, s.pcs[w])
    ensures !Inside(s.pcs[u]) && !In(Writing, s.pcs[u])
  {
    CountOne(Writing, s.pcs, w);
    if In(Writing, s.pcs[u]) {
      AtMostOne(Writing, s.pcs, w, u);
    }
    if Inside(s.pcs[u]) {
      InsideHolds(s, u);
    }
  }

  /** A reader that is inside means that the readers hold db. */
  lemma InsideHolds(s: State, u: nat)
    requires Inv(s) && u < |s.pcs| && Inside(s.pcs[u])
    ensures GroupHolds(s) == 1 && s.db == 0
  {
    CountOne(Counted, s.pcs, u);
    if Count(FirstWaits, s.pcs) > 0 {
      var v := CountSome(FirstWaits, s.pcs);
      AtMostOne(Counted, s.pcs, u, v);
    }
  }

  // ----- progress -----

  predicate AllDone(s: State) {
    forall t :: 0 <= t < |s.pcs| ==> s.pcs[t].Done?
  }

  /** Somebody inside the rc section can move, or the writer it waits for can. */
  lemma RcMoves(s: State, t: nat) returns (u: nat)
    requires Inv(s) && t < |s.pcs| && In(InRc, s.pcs[t])
    ensures u < |s.pcs| && Enabled(s, u)
  {
    u := t;
    if s.pcs[t].RWaitDb? && s.db == 0 {
      OnlyMe(s, t);
      u := CountSome(Writing, s.pcs);
    }
  }

  /** No deadlock: as long as some thread is unfinished, some thread can step. */
  lemma Progress(s: State, t: nat) returns (u: nat)
    requires Inv(s) && t < |s.pcs| && !s.pcs[t].Done?
    ensures u < |s.pcs| && Enabled(s, u)
  {
    if Enabled(s, t) {
      u := t;
    } else if Count(InRc, s.pcs) > 0 {
      var v := CountSome(InRc, s.pcs);
      u := RcMoves(s, v);
    } else {
      // rc is free, so t waits for db
      u := DbMoves(s);
    }
  }

  /** With rc free and db taken, the writer holding db or a reader inside can move. */
  lemma DbMoves(s: State) returns (u: nat)
    requires Inv(s) && Count(InRc, s.pcs) == 0 && s.db == 0
    ensures u < |s.pcs| && Enabled(s, u)
  {
    if Count(Writing, s.pcs) > 0 {
      u := CountSome(Writing, s.pcs);
    } else if Count(LastPosts, s.pcs) > 0 {
      var v := CountSome(LastPosts, s.pcs);
      CountOne(InRc, s.pcs, v);
      u := v;
    } else {
      u := CountSome(Counted, s.pcs);
      if In(InRc, s.pcs[u]) {
        CountOne(InRc, s.pcs, u);
      }
    }
  }

  // ----- every run ends, and ends well -----

  /** Steps a thread has still to make, at most. */
  function Rank(pc: Pc): nat {
    match pc
    case RWaitRc1 => 11
    case RLoad1 => 10
    case RStore1(_) => 9
    case RWaitDb => 8
    case RPost1 => 7
    case RRead => 6
    case RWaitRc2 => 5
    case RLoad2 => 4
    case RStore2(_) => 3
    case RPostDb => 2
    case RPost2 => 1
    case WWaitDb => 5
    case WLoad => 4
    case WStore(_) => 3
    case WPrint => 2
    case WPost => 1
    case Done(_) => 0
  }

  function Work(pcs: seq<Pc>): nat {
    if pcs == [] then 0 else Work(pcs[..|pcs| - 1]) + Rank(pcs[|pcs| - 1])
  }

  lemma {:induction false} WorkUpdate(pcs: seq<Pc>, t: nat, pc: Pc)
    requires t < |pcs|
    ensures Work(pcs[t := pc]) == Work(pcs) - Rank(pcs[t]) + Rank(pc)
  {
    var n := |pcs| - 1;
    if t == n {
      assert pcs[t := pc][..n] == pcs[..n];
    } else {
      WorkUpdate(pcs[..n], t, pc);
      assert pcs[t := pc][..n] == pcs[..n][t := pc];
    }
  }

  lemma StepWork(s: State, t: nat)
    requires t < |s.pcs| && Enabled(s, t)
    ensures Work(Step(s, t).pcs) < Work(s.pcs)
  {
    WorkUpdate(s.pcs, t, Step(s, t).pcs[t]);
  }

  /** A schedule names, step by step, a thread that can move. */
  predicate IsRun(s: State, schedule: seq<nat>)
    decreases |schedule|
  {
    schedule == [] ||
    (schedule[0] < |s.pcs| && Enabled(s, schedule[0]) && IsRun(Step(s, schedule[0]), schedule[1..]))
  }

  function Exec(s: State, schedule: seq<nat>): State
    requires IsRun(s, schedule)
    decreases |schedule|
  {
    if schedule == [] then s else Exec(Step(s, schedule[0]), schedule[1..])
  }

  /** Writers stay writers. */
  predicate SameRoles(a: seq<Pc>, b: seq<Pc>) {
    |a| == |b| && forall t :: 0 <= t < |a| ==> IsWriter(a[t]) == IsWriter(b[t])
  }

  lemma StepRoles(s: State, t: nat)
    requires t < |s.pcs| && Enabled(s, t)
    ensures SameRoles(s.pcs, Step(s, t).pcs)
  {
  }

  /** Every run keeps the invariant and is no longer than the work to be done. */
  lemma {:induction false} RunInv(s: State, schedule: seq<nat>)
    requires Inv(s) && IsRun(s, schedule)
    ensures Inv(Exec(s, schedule))
    ensures |schedule| + Work(Exec(s, schedule).pcs) <= Work(s.pcs)
    decreases |schedule|
  {
    if schedule != [] {
      var s' := Step(s, schedule[0]);
      assert Inv(s') && Work(s'.pcs) < Work(s.pcs) by {
        StepInv(s, schedule[0]);
        StepWork(s, schedule[0]);
      }
      RunInv(s', schedule[1..]);
    }
  }

  /** Threads keep their roles. */
  lemma {:induction false} RunRoles(s: State, schedule: seq<nat>)
    requires IsRun(s, schedule)
    ensures SameRoles(s.pcs, Exec(s, schedule).pcs)
    decreases |schedule|
  {
    if schedule != [] {
      StepRoles(s, schedule[0]);
      RunRoles(Step(s, schedule[0]), schedule[1..]);
    }
  }

  function Writers(pcs: seq<Pc>): nat {
    if pcs == [] then 0 else Writers(pcs[..|pcs| - 1]) + if IsWriter(pcs[|pcs| - 1]) then 1 else 0
  }

  lemma {:induction false} AllWrote(a: seq<Pc>, b: seq<Pc>)
    requires SameRoles(a, b) && forall t :: 0 <= t < |b| ==> b[t].Done?
    ensures Count(Wrote, b) == Writers(a)
  {
    if a != [] {
      var n := |a| - 1;
      assert forall t :: 0 <= t < n ==> a[..n][t] == a[t] && b[..n][t] == b[t];
      AllWrote(a[..n], b[..n]);
    }
  }

  /** A run that cannot be continued has finished every thread and left the semaphores at 1,
      readcount at 0 and the buffer raised once per writer. */
  lemma CompleteRun(s: State, schedule: seq<nat>)
    requires Init(s) && IsRun(s, schedule)
    requires forall t :: 0 <= t < |s.pcs| ==> t < |Exec(s, schedule).pcs| && !Enabled(Exec(s, schedule), t)
    ensures var e := Exec(s, schedule);
            AllDone(e) && e.db == 1 && e.rc == 1 && e.readcount == 0 && e.buffer == Writers(s.pcs)
  {
    InitInv(s);
    RunInv(s, schedule);
    RunRoles(s, schedule);
    var e := Exec(s, schedule);
    forall t | 0 <= t < |e.pcs| ensures e.pcs[t].Done? {
      if !e.pcs[t].Done? {
        var u := Progress(e, t);
      }
    }
    FinalCounts(s, e);
  }

  lemma FinalCounts(s: State, e: State)
    requires Inv(e) && AllDone(e) && SameRoles(s.pcs, e.pcs)
    ensures e.db == 1 && e.rc == 1 && e.readcount == 0 && e.buffer == Writers(s.pcs)
  {
    CountNone(InRc, e.pcs);
    CountNone(Counted, e.pcs);
    CountNone(LastPosts, e.pcs);
    CountNone(Writing, e.pcs);
    AllWrote(s.pcs, e.pcs);
  }
}
