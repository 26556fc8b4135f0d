/** The MLFQS feedback loop (pintos-GDB/src/threads/thread.c, driven by devices/timer.c): load
    average, recent CPU and priorities stay in range on every run, and no 32-bit update wraps. */
module Mlfqs {
  import opened Arith
  import opened FixedPoint
  import opened Machine
  import opened Sets

  const TIMER_FREQ := 100
  const PRI_MAX := 63

  /** A non-idle thread: recent_cpu as a fixed-point word, its nice value and priority. */
  datatype Thr = Thr(recent: int, nice: int, priority: int)

  datatype Sched = Sched(ticks: nat, load: int, threads: map<int, Thr>)

  // ----- the formulas, in exact arithmetic -----

  function NewLoad(load: int, ready: int): int {
    (59 * load + ready * ONE) / 60
  }

  /** (2 * load) / (2 * load + 1). */
  function Decay(load: int): int
    requires load >= 0
  {
    2 * load * ONE / (2 * load + ONE)
  }

  function NewRecent(load: int, recent: int, nice: int): int
    requires load >= 0
  {
    Decay(load) * recent / ONE + nice * ONE
  }

  /** PRI_MAX - recent_cpu / 4 - 2 * nice. */
  function RawPriority(recent: int, nice: int): int {
    (PRI_MAX * ONE - Trunc(recent, 4) - 2 * nice * ONE) / ONE
  }

  /** The same, clamped. */
  function NewPriority(recent: int, nice: int): int {
    var p := RawPriority(recent, nice);
    if p < 0 then 0 else if p > PRI_MAX then PRI_MAX else p
  }

  // ----- bounds -----

  predicate LoadOk(load: int, l: int) {
    0 <= load <= l * ONE
  }

  /** recent_cpu `since` ticks after the last per-second update. */
  predicate RecentOk(recent: int, l: int, since: int) {
    -20 * (2 * l + 1) * ONE <= recent <= (240 * l + 20 + since) * ONE
  }

  predicate NiceOk(nice: int) {
    -20 <= nice <= 20
  }

  lemma LoadBounded(load: int, ready: int, l: int)
    requires LoadOk(load, l) && 0 <= ready <= l
    ensures LoadOk(NewLoad(load, ready), l)
  {
  }

  /** The decay factor is at most 2L / (2L + 1): the feedback contracts. */
  lemma DecayBounded(load: int, l: int)
    requires l >= 1 && LoadOk(load, l)
    ensures 0 <= Decay(load) < ONE && Decay(load) * (2 * l + 1) <= 2 * l * ONE
  {
    var x := 2 * load;
    var c := x * ONE / (x + ONE);
    assert x * ONE == c * (x + ONE) + x * ONE % (x + ONE);
    DivAtLeast(x * ONE, x + ONE, 0);
    DivLess(x * ONE, x + ONE, ONE);
    // c * ONE <= x * (ONE - c) <= 2L * ONE * (ONE - c)
    assert c * (x + ONE) == c * x + c * ONE;
    assert x * (ONE - c) == x * ONE - c * x;
    MulMono(x, 2 * l * ONE, ONE - c);
    assert (2 * l * ONE) * (ONE - c) == (2 * l * (ONE - c)) * ONE;
    assert 2 * l * (ONE - c) == 2 * l * ONE - 2 * l * c;
    assert c * (2 * l + 1) == 2 * l * c + c;
  }

  /** Decaying a value that is a multiple k of (2L + 1) leaves at most k of 2L. */
  lemma DecayScales(c: int, l: int, k: int)
    requires l >= 1 && c >= 0 && k >= 0 && c * (2 * l + 1) <= 2 * l * ONE
    ensures c * (k * (2 * l + 1) * ONE) <= (k * (2 * l) * ONE) * ONE
  {
    MulMono(c * (2 * l + 1), 2 * l * ONE, k * ONE) by {
      MulNonNeg(k, ONE);
    }
    assert c * (k * (2 * l + 1) * ONE) == (c * (2 * l + 1)) * (k * ONE);
    assert (2 * l * ONE) * (k * ONE) == (k * (2 * l) * ONE) * ONE;
  }

  /** One per-second update brings recent_cpu back into its resting range, whatever the last
      hundred ticks added. */
  lemma RecentBounded(load: int, recent: int, nice: int, l: int)
    requires l >= 1 && LoadOk(load, l) && RecentOk(recent, l, 100) && NiceOk(nice)
    ensures RecentOk(NewRecent(load, recent, nice), l, 0)
  {
    var c := Decay(load);
    DecayBounded(load, l);
    DecayScales(c, l, 120);
    DecayScales(c, l, 20);
    MulMono(recent, 120 * (2 * l + 1) * ONE, c);
    MulMono(-(20 * (2 * l + 1) * ONE), recent, c);
    assert c * recent == recent * c;
    assert c * (120 * (2 * l + 1) * ONE) == (120 * (2 * l + 1) * ONE) * c;
    assert -(20 * (2 * l + 1) * ONE) * c == -(c * (20 * (2 * l + 1) * ONE));
    FloorBetween(c * recent, -(20 * (2 * l) * ONE), 120 * (2 * l) * ONE);
  }

  lemma FloorBetween(x: int, lo: int, hi: int)
    requires lo * ONE <= x <= hi * ONE
    ensures lo <= x / ONE <= hi
  {
  }

  // ----- the state machine -----

  datatype Event =
    | Tick(running: int, ready: nat)          // timer interrupt; `running` is no thread when idle
    | Spawn(tid: int, nice: int, priority: int)
    | SetNice(tid: int, newNice: int)
    | Exit(tid: int)

  /** With at most `l` ready or running threads, nice values in range, and sane new priorities. */
  predicate Allowed(s: Sched, e: Event, l: int) {
    match e
    case Tick(_, ready) => ready <= l
    case Spawn(tid, nice, priority) => tid !in s.threads && NiceOk(nice) && 0 <= priority <= PRI_MAX
    case SetNice(tid, nice) => tid in s.threads && NiceOk(nice)
    case Exit(tid) => tid in s.threads
  }

  /** Everything in range: the invariant of every run. */
  predicate InRange(s: Sched, l: int) {
    && LoadOk(s.load, l)
    && forall t :: t in s.threads ==> ThrOk(s.threads[t], l, s.ticks % TIMER_FREQ)
  }

  predicate ThrOk(t: Thr, l: int, since: int) {
    RecentOk(t.recent, l, since) && NiceOk(t.nice) && 0 <= t.priority <= PRI_MAX
  }

  function Charge(threads: map<int, Thr>, running: int): map<int, Thr> {
    if running !in threads then threads
    else threads[running := threads[running].(recent := threads[running].recent + ONE)]
  }

  function DecayAll(threads: map<int, Thr>, load: int): map<int, Thr>
    requires load >= 0
  {
    map t | t in threads :: threads[t].(recent := NewRecent(load, threads[t].recent, threads[t].nice))
  }

  function Reprioritize(t: Thr): Thr {
    t.(priority := NewPriority(t.recent, t.nice))
  }

  function PrioritizeAll(threads: map<int, Thr>): map<int, Thr> {
    map t | t in threads :: Reprioritize(threads[t])
  }

  function PrioritizeOne(threads: map<int, Thr>, t: int): map<int, Thr> {
    if t in threads then threads[t := Reprioritize(threads[t])] else threads
  }

  /** The per-second part of the timer interrupt. */
  function Second(s: Sched, ready: nat): Sched
    requires s.load >= 0
  {
    var load := NewLoad(s.load, ready);
    s.(load := load, threads := PrioritizeAll(DecayAll(s.threads, load)))
  }

  function Step(s: Sched, e: Event): Sched
    requires s.load >= 0
  {
    match e
    case Tick(running, ready) =>
      var s1 := Sched(s.ticks + 1, s.load, Charge(s.threads, running));
      var s2 := if s1.ticks % TIMER_FREQ == 0 then Second(s1, ready) else s1;
      if s2.ticks % 4 == 0 then s2.(threads := PrioritizeOne(s2.threads, running)) else s2
    case Spawn(tid, nice, priority) => s.(threads := s.threads[tid := Thr(0, nice, priority)])
    case SetNice(tid, nice) =>
      if tid in s.threads then s.(threads := s.threads[tid := Reprioritize(s.threads[tid].(nice := nice))]) else s
    case Exit(tid) => s.(threads := s.threads - {tid})
  }

  /** Between two per-second updates each thread gains at most one per tick. */
  lemma ChargeBounded(s: Sched, running: int, l: int)
    requires l >= 1 && InRange(s, l)
    ensures var threads := Charge(s.threads, running);
            forall t :: t in threads ==> ThrOk(threads[t], l, s.ticks % TIMER_FREQ + 1)
  {
  }

  lemma SecondBounded(s: Sched, ready: nat, l: int)
    requires l >= 1 && ready <= l && LoadOk(s.load, l) && forall t :: t in s.threads ==> ThrOk(s.threads[t], l, 100)
    ensures var s2 := Second(s, ready);
            LoadOk(s2.load, l) && forall t :: t in s2.threads ==> ThrOk(s2.threads[t], l, 0)
  {
    LoadBounded(s.load, ready, l);
    var load := NewLoad(s.load, ready);
    forall t | t in s.threads ensures ThrOk(Reprioritize(DecayAll(s.threads, load)[t]), l, 0) {
      RecentBounded(load, s.threads[t].recent, s.threads[t].nice, l);
    }
  }

  lemma StepInRange(s: Sched, e: Event, l: int)
    requires l >= 1 && InRange(s, l) && Allowed(s, e, l)
    ensures InRange(Step(s, e), l)
  {
    match e
    case Tick(running, ready) =>
      ChargeBounded(s, running, l);
      var s1 := Sched(s.ticks + 1, s.load, Charge(s.threads, running));
      if s1.ticks % TIMER_FREQ == 0 {
        assert s.ticks % TIMER_FREQ + 1 == 100;
        SecondBounded(s1, ready, l);
      } else {
        assert s1.ticks % TIMER_FREQ == s.ticks % TIMER_FREQ + 1;
      }
    case Spawn(_, _, _) =>
    case SetNice(_, _) =>
    case Exit(_) =>
  }

  ghost predicate AllowedRun(s: Sched, es: seq<Event>, l: int)
    requires l >= 1 && InRange(s, l)
    decreases |es|
  {
    es == [] || (Allowed(s, es[0], l) && (StepInRange(s, es[0], l); AllowedRun(Step(s, es[0]), es[1..], l)))
  }

  /** Every run from boot stays in range, forever. */
  ghost function Run(s: Sched, es: seq<Event>, l: int): (r: Sched)
    requires l >= 1 && InRange(s, l) && AllowedRun(s, es, l)
    ensures InRange(r, l)
    decreases |es|
  {
    if es == [] then s
    else StepInRange(s, es[0], l); Run(Step(s, es[0]), es[1..], l)
  }

  // ----- the program, in 32-bit arithmetic -----

  /** With L up to 136 no intermediate of the load average wraps. */
  lemma LoadNoWrap(load: int, ready: int, l: int)
    requires 1 <= l <= 136 && LoadOk(load, l) && 0 <= ready <= l
    ensures DivMix(Add(MultMix(load, 59), Const(ready)), 60) == NewLoad(load, ready)
  {
    WrapId(load * 59);
    WrapId(ready * ONE);
    WrapId(load * 59 + ready * ONE);
  }

  lemma DecayNoWrap(load: int, l: int)
    requires 1 <= l <= 136 && LoadOk(load, l)
    ensures AddMix(MultMix(load, 2), 1) > 0
    ensures Div(MultMix(load, 2), AddMix(MultMix(load, 2), 1)) == Decay(load)
  {
    WrapId(load * 2);
    WrapId(1 * ONE);
    WrapId(load * 2 + ONE);
    DecayBounded(load, l);
    WrapId(Decay(load));
  }

  lemma RecentNoWrap(load: int, recent: int, nice: int, l: int)
    requires 1 <= l <= 136 && LoadOk(load, l) && RecentOk(recent, l, 100) && NiceOk(nice)
    ensures AddMix(MultMix(load, 2), 1) > 0
    ensures AddMix(Mult(Div(MultMix(load, 2), AddMix(MultMix(load, 2), 1)), recent), nice)
            == NewRecent(load, recent, nice)
  {
    DecayNoWrap(load, l);
    RecentBounded(load, recent, 0, l);
    RecentBounded(load, recent, nice, l);
    WrapId(Decay(load) * recent / ONE);
    WrapId(nice * ONE);
    WrapId(NewRecent(load, recent, nice));
  }

  lemma PriorityNoWrap(recent: int, nice: int, l: int)
    requires 1 <= l <= 136 && RecentOk(recent, l, 100) && NiceOk(nice)
    ensures IntPart(SubMix(Sub(Const(PRI_MAX), DivMix(recent, 4)), 2 * nice))
            == RawPriority(recent, nice)
  {
    WrapId(PRI_MAX * ONE);
    WrapId(PRI_MAX * ONE - Trunc(recent, 4));
    WrapId(2 * nice * ONE);
    WrapId(PRI_MAX * ONE - Trunc(recent, 4) - 2 * nice * ONE);
  }

  /** `thread_get_recent_cpu`. */
  function Reported(recent: int): int {
    Round(MultMix(recent, 100))
  }

  /** Over all words, the reported value is the nearest integer to a hundred times recent_cpu exactly
      where that product does not wrap and rounds right, or wraps just below the bottom, where the
      subtracted half wraps it back. */
  lemma ReportedExact(recent: S32)
    ensures var x := 100 * recent;
            Reported(recent) == Nearest(x) <==> RoundsRight(x) || -B31 - HALF < x < -B31
    ensures Reported(328 * ONE) < 0
  {
    var x := 100 * recent;
    RoundExact(MultMix(recent, 100));
    if Fits32(x) {
      WrapId(x);
    } else {
      ReportedWraps(x);
    }
    assert Reported(328 * ONE) < 0 by { assert MultMix(328 * ONE, 100) == 32800 * ONE - B32; }
  }

  /** Beyond 32 bits the rounded word meets the nearest integer only just below the bottom. */
  lemma ReportedWraps(x: int)
    requires !Fits32(x)
    ensures Round(Signed32(x)) == Nearest(x) <==> -B31 - HALF < x < -B31
  {
    assert -0x8000 <= Round(Signed32(x)) < 0x8000;
    if -B31 - HALF < x < -B31 {
      assert Signed32(x) == x + B32;
    }
  }

  /** The scheduler's globals. */
  class Kernel {
    var ticks: nat
    var load: int
    var threads: map<int, Thr>

    ghost function State(): Sched
      reads this
    {
      Sched(ticks, load, threads)
    }

    constructor ()
      ensures State() == Sched(0, 0, map[]) && InRange(State(), 1)
    {
      ticks, load, threads := 0, 0, map[];
    }

    /** `update_recent_cpu_by_one`. */
    method UpdateRecentByOne(running: int, ghost l: int)
      requires 1 <= l <= 136 && InRange(State(), l)
      modifies this`threads
      ensures threads == Charge(old(threads), running)
      ensures threads.Keys == old(threads).Keys
      ensures forall t :: t in threads ==> threads[t] == old(threads)[t].(recent := threads[t].recent)
      ensures forall t :: t in threads ==>
        threads[t].recent == old(threads)[t].recent + if t == running then ONE else 0
    {
      if running in threads {
        WrapId(threads[running].recent + ONE);
        threads := threads[running := threads[running].(recent := AddMix(threads[running].recent, 1))];
      }
    }

    /** `update_load_average`. */
    method UpdateLoadAverage(ready: nat, ghost l: int)
      requires 1 <= l <= 136 && LoadOk(load, l) && ready <= l
      modifies this`load
      ensures load == NewLoad(old(load), ready)
    {
      LoadNoWrap(load, ready, l);
      load := DivMix(Add(MultMix(load, 59), Const(ready)), 60);
    }

    /** `update_recent_cpu_all`: over all threads, in any order. */
    method UpdateRecentAll(ghost l: int)
      requires 1 <= l <= 136 && LoadOk(load, l) && forall t :: t in threads ==> ThrOk(threads[t], l, 100)
      modifies this`threads
      ensures threads == DecayAll(old(threads), load)
    {
      var todo := threads.Keys;
      while todo != {}
        invariant todo <= threads.Keys == old(threads).Keys
        invariant forall t :: t in todo ==> threads[t] == old(threads)[t]
        invariant forall t :: t in threads.Keys - todo ==> threads[t] == DecayAll(old(threads), load)[t]
        decreases |todo|
      {
        var t := Pick(todo);
        var r := threads[t];
        RecentNoWrap(load, r.recent, r.nice, l);
        var decay := Div(MultMix(load, 2), AddMix(MultMix(load, 2), 1));
        threads := threads[t := r.(recent := AddMix(Mult(decay, r.recent), r.nice))];
        todo := todo - {t};
      }
      SameTable(threads, DecayAll(old(threads), load));
    }

    /** `update_priority`. */
    method UpdatePriority(t: int, ghost l: int)
      requires 1 <= l <= 136 && (t in threads ==> RecentOk(threads[t].recent, l, 100) && NiceOk(threads[t].nice))
      modifies this`threads
      ensures threads == PrioritizeOne(old(threads), t)
    {
      if t in threads {
        var r := threads[t];
        PriorityNoWrap(r.recent, r.nice, l);
        var p := IntPart(SubMix(Sub(Const(PRI_MAX), DivMix(r.recent, 4)), 2 * r.nice));
        p := if p < 0 then 0 else p;
        p := if p > PRI_MAX then PRI_MAX else p;
        threads := threads[t := r.(priority := p)];
      }
    }

    /** `update_priority_all`. */
    method UpdatePriorityAll(ghost l: int)
      requires 1 <= l <= 136 && forall t :: t in threads ==> ThrOk(threads[t], l, 100)
      modifies this`threads
      ensures threads == PrioritizeAll(old(threads))
    {
      var todo := threads.Keys;
      while todo != {}
        invariant todo <= threads.Keys == old(threads).Keys
        invariant forall t :: t in todo ==> threads[t] == old(threads)[t]
        invariant forall t :: t in threads.Keys - todo ==> threads[t] == PrioritizeAll(old(threads))[t]
        decreases |todo|
      {
        var t := Pick(todo);
        UpdatePriority(t, l);
        todo := todo - {t};
      }
      SameTable(threads, PrioritizeAll(old(threads)));
    }

    /** `timer_interrupt`: every tick keeps the state in range and computes the exact formulas. */
    method TimerInterrupt(running: int, ready: nat, ghost l: int)
      requires 1 <= l <= 136 && InRange(State(), l) && ready <= l
      modifies this
      ensures State() == Step(old(State()), Tick(running, ready)) && InRange(State(), l)
    {
      StepInRange(State(), Tick(running, ready), l);
      ChargeBounded(State(), running, l);
      UpdateRecentByOne(running, l);
      ticks := ticks + 1;
      if ticks % TIMER_FREQ == 0 {
        assert old(ticks) % TIMER_FREQ + 1 == 100;
        EverySecond(ready, l);
      }
      if ticks % 4 == 0 {
        UpdatePriority(running, l);
      }
    }

    /** The per-second branch of `timer_interrupt`. */
    method EverySecond(ready: nat, ghost l: int)
      requires 1 <= l <= 136 && LoadOk(load, l) && ready <= l && forall t :: t in threads ==> ThrOk(threads[t], l, 100)
      modifies this`load, this`threads
      ensures State() == Second(old(State()), ready)
      ensures LoadOk(load, l) && forall t :: t in threads ==> ThrOk(threads[t], l, 0)
    {
      LoadBounded(load, ready, l);
      SecondBounded(State(), ready, l);
      UpdateLoadAverage(ready, l);
      UpdateRecentAll(l);
      forall t | t in threads ensures ThrOk(threads[t], l, 100) {
        assert RecentOk(PrioritizeAll(threads)[t].recent, l, 0);
      }
      UpdatePriorityAll(l);
    }
  }
}
