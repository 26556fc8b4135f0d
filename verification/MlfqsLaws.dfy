/** What the MLFQS loop promises over runs (pintos-GDB/src/threads/thread.c, devices/timer.c), told
    without its steps: who is charged, how close the fixed-point values stay to the real formulas, and
    when a priority is current. */
module MlfqsLaws {
  import opened FixedPoint
  import opened Machine
  import opened Mlfqs
  import opened Sets

  // ----- charging -----

  function Ticks(es: seq<Event>): nat {
    if es == [] then 0 else (if es[0].Tick? then 1 else 0) + Ticks(es[1..])
  }

  /** Ticks on which one of `ps` was running. */
  ghost function Ran(es: seq<Event>, ps: set<int>): nat {
    if es == [] then 0 else (if es[0].Tick? && es[0].running in ps then 1 else 0) + Ran(es[1..], ps)
  }

  predicate Leaves(e: Event, t: int) {
    e.Exit? && e.tid == t
  }

  predicate Stays(es: seq<Event>, t: int) {
    forall i :: 0 <= i < |es| ==> !Leaves(es[i], t)
  }

  lemma StaysOn(es: seq<Event>, t: int)
    requires es != [] && Stays(es, t)
    ensures !Leaves(es[0], t) && Stays(es[1..], t)
  {
    forall i | 0 <= i < |es[1..]| ensures !Leaves(es[1..][i], t) {
      assert es[1..][i] == es[i + 1];
    }
  }

  lemma RunNext(s: Sched, es: seq<Event>, l: int)
    requires l >= 1 && InRange(s, l) && AllowedRun(s, es, l) && es != []
    ensures Allowed(s, es[0], l) && InRange(Step(s, es[0]), l) && AllowedRun(Step(s, es[0]), es[1..], l)
    ensures Run(s, es, l) == Run(Step(s, es[0]), es[1..], l)
  {
    StepInRange(s, es[0], l);
  }

  /** One event before the next per-second update. */
  lemma StepCharges(s: Sched, e: Event, l: int, t: int)
    requires l >= 1 && InRange(s, l) && Allowed(s, e, l) && t in s.threads && !Leaves(e, t)
    requires e.Tick? ==> s.ticks % TIMER_FREQ + 1 < TIMER_FREQ
    ensures var s' := Step(s, e);
            && t in s'.threads && s'.load == s.load && s'.ticks == s.ticks + (if e.Tick? then 1 else 0)
            && s'.threads[t].recent == s.threads[t].recent + if e.Tick? && e.running == t then ONE else 0
  {
    if e.Tick? {
      assert (s.ticks + 1) % TIMER_FREQ != 0;
      assert Step(s, e).threads[t].recent == Charge(s.threads, e.running)[t].recent;
    }
  }

  /** Between two per-second updates a thread's recent_cpu grows by one for each tick on which it ran,
      and for nothing else. */
  lemma {:induction false} ChargedExactly(s: Sched, es: seq<Event>, l: int, t: int)
    requires l >= 1 && InRange(s, l) && AllowedRun(s, es, l) && t in s.threads && Stays(es, t)
    requires s.ticks % TIMER_FREQ + Ticks(es) < TIMER_FREQ
    ensures var r := Run(s, es, l);
            && t in r.threads && r.load == s.load && r.ticks == s.ticks + Ticks(es)
            && r.threads[t].recent == s.threads[t].recent + ONE * Ran(es, {t})
    decreases |es|
  {
    if es != [] {
      StaysOn(es, t);
      RunNext(s, es, l);
      StepCharges(s, es[0], l, t);
      ChargedExactly(Step(s, es[0]), es[1..], l, t);
    }
  }

  ghost function TotalRecent(threads: map<int, Thr>, ps: set<int>): int
    requires ps <= threads.Keys
    decreases ps
  {
    if ps == {} then 0
    else
      var p := Choose(ps);
      threads[p].recent + TotalRecent(threads, ps - {p})
  }

  lemma {:induction false} RanSplits(es: seq<Event>, ps: set<int>, t: int)
    requires t in ps
    ensures Ran(es, ps) == Ran(es, {t}) + Ran(es, ps - {t})
  {
    if es != [] {
      RanSplits(es[1..], ps, t);
    }
  }

  /** Together they grow by one for each tick on which one of them ran. */
  lemma {:induction false} ChargedInTotal(s: Sched, es: seq<Event>, l: int, ps: set<int>)
    requires l >= 1 && InRange(s, l) && AllowedRun(s, es, l) && ps <= s.threads.Keys
    requires forall t :: t in ps ==> Stays(es, t)
    requires s.ticks % TIMER_FREQ + Ticks(es) < TIMER_FREQ
    ensures ps <= Run(s, es, l).threads.Keys
    ensures TotalRecent(Run(s, es, l).threads, ps) == TotalRecent(s.threads, ps) + ONE * Ran(es, ps)
    decreases ps
  {
    forall t | t in ps ensures t in Run(s, es, l).threads {
      ChargedExactly(s, es, l, t);
    }
    if ps == {} {
      RanNobody(es);
    } else {
      var p := Choose(ps);
      ChargedExactly(s, es, l, p);
      ChargedInTotal(s, es, l, ps - {p});
      RanSplits(es, ps, p);
    }
  }

  lemma {:induction false} RanNobody(es: seq<Event>)
    ensures Ran(es, {}) == 0
  {
    if es != [] {
      RanNobody(es[1..]);
    }
  }

  // ----- the load average -----

  /** load = 59/60 * load + 1/60 * ready, once per sample, in real arithmetic. */
  function Average(load: real, samples: seq<nat>): real
    decreases |samples|
  {
    if samples == [] then load else Average((59.0 * load + samples[0] as real) / 60.0, samples[1..])
  }

  function LoadAfter(load: int, samples: seq<nat>): int
    decreases |samples|
  {
    if samples == [] then load else LoadAfter(NewLoad(load, samples[0]), samples[1..])
  }

  /** The fixed-point value as a real number. */
  function Value(x: int): real {
    x as real / 65536.0
  }

  /** Behind by less than 60 units of 2^-16. */
  predicate CloseBelow(x: int, exact: real) {
    0.0 <= exact * 65536.0 - x as real < 60.0
  }

  lemma LoadStaysClose(load: int, exact: real, ready: nat)
    requires CloseBelow(load, exact)
    ensures CloseBelow(NewLoad(load, ready), (59.0 * exact + ready as real) / 60.0)
  {
    var n := 59 * load + ready * ONE;
    assert n == 60 * (n / 60) + n % 60;
    assert n as real == 59.0 * load as real + ready as real * 65536.0;
  }

  /** However long the run, the fixed-point load average is behind the real one by less than 60 / 2^16. */
  lemma {:induction false} LoadIsAverage(load: int, exact: real, samples: seq<nat>)
    requires CloseBelow(load, exact)
    ensures CloseBelow(LoadAfter(load, samples), Average(exact, samples))
    decreases |samples|
  {
    if samples != [] {
      LoadStaysClose(load, exact, samples[0]);
      LoadIsAverage(NewLoad(load, samples[0]), (59.0 * exact + samples[0] as real) / 60.0, samples[1..]);
    }
  }

  /** The numbers of ready threads found at the per-second updates of a run. */
  function Samples(ticks: nat, es: seq<Event>): seq<nat>
    decreases |es|
  {
    if es == [] then []
    else if es[0].Tick? then
      (if (ticks + 1) % TIMER_FREQ == 0 then [es[0].ready] else []) + Samples(ticks + 1, es[1..])
    else Samples(ticks, es[1..])
  }

  lemma StepSamples(s: Sched, e: Event)
    requires s.load >= 0
    ensures var s' := Step(s, e);
            s'.load == (if e.Tick? && (s.ticks + 1) % TIMER_FREQ == 0 then NewLoad(s.load, e.ready) else s.load)
            && s'.ticks == s.ticks + if e.Tick? then 1 else 0
  {
  }

  lemma {:induction false} RunSamples(s: Sched, es: seq<Event>, l: int)
    requires l >= 1 && InRange(s, l) && AllowedRun(s, es, l)
    ensures Run(s, es, l).load == LoadAfter(s.load, Samples(s.ticks, es))
    decreases |es|
  {
    if es != [] {
      var e, rest := es[0], es[1..];
      RunNext(s, es, l);
      StepSamples(s, e);
      RunSamples(Step(s, e), rest, l);
      var more := Samples(Step(s, e).ticks, rest);
      assert e.Tick? ==> ([e.ready] + more)[1..] == more && [] + more == more;
    }
  }

  /** After every run from boot the load average is that of the samples taken once per second. */
  lemma RunLoad(es: seq<Event>, l: int)
    requires l >= 1 && AllowedRun(Sched(0, 0, map[]), es, l)
    ensures CloseBelow(Run(Sched(0, 0, map[]), es, l).load, Average(0.0, Samples(0, es)))
  {
    RunSamples(Sched(0, 0, map[]), es, l);
    LoadIsAverage(0, 0.0, Samples(0, es));
  }

  // ----- recent_cpu -----

  /** 2 * load / (2 * load + 1). */
  function Factor(load: int): real
    requires load >= 0
  {
    (2 * load) as real / (2 * load + ONE) as real
  }

  lemma MulReal(a: real, b: real, c: real)
    requires a <= b && c >= 0.0
    ensures a * c <= b * c
  {
  }

  lemma DivideReal(a: real, b: real, c: real, p: real, q: real)
    requires p == a * c && q == b * c && p <= q && c > 0.0
    ensures a <= b
  {
    assert (a - b) * c == p - q;
    if a > b {
      Strict(a - b, c);
    }
  }

  lemma Between(d: real, e: real, w: real, z: real, lo: real, u: real, hi: real)
    requires z > 0.0 && w * z == u && lo == d * z && hi == e * z && lo <= u <= hi
    ensures d <= w <= e
  {
    DivideReal(d, w, z, lo, u);
    DivideReal(w, e, z, u, hi);
  }

  lemma ScaledQuotient(x: real, z: real)
    requires z > 0.0
    ensures (x / z * 65536.0) * z == x * 65536.0
  {
    var f := x / z;
    assert f * z == x;
  }

  lemma ProductAsReal(a: int, b: int)
    ensures (a * b) as real == a as real * b as real
  {
  }

  lemma FactorClose(load: int)
    requires load >= 0
    ensures Decay(load) as real <= Factor(load) * 65536.0 <= Decay(load) as real + 1.0
  {
    var x, y, d := 2 * load, 2 * load + ONE, Decay(load);
    assert x * ONE == d * y + x * ONE % y;
    assert (d + 1) * y == d * y + y;
    ProductAsReal(d, y);
    ProductAsReal(d + 1, y);
    ScaledQuotient(x as real, y as real);
    Between(d as real, (d + 1) as real, Factor(load) * 65536.0, y as real,
            (d * y) as real, x as real * 65536.0, ((d + 1) * y) as real);
  }

  lemma Strict(a: real, b: real)
    requires a > 0.0 && b > 0.0
    ensures a * b > 0.0
  {
  }

  /** Within one unit plus one 2^-16th of the value itself. */
  predicate CloseTo(x: int, exact: real, size: int) {
    var slack := 1.0 + (if size >= 0 then size else -size) as real / 65536.0;
    -slack <= x as real - exact <= slack
  }

  /** Factor * recent_cpu + nice, in units of 2^-16. */
  function ExactRecent(load: int, recent: int, nice: int): real
    requires load >= 0
  {
    Factor(load) * recent as real + (nice * ONE) as real
  }

  /** The fixed-point update is close to the real one. */
  lemma RecentIsClose(load: int, recent: int, nice: int)
    requires load >= 0
    ensures CloseTo(NewRecent(load, recent, nice), ExactRecent(load, recent, nice), recent)
  {
    FactorClose(load);
    ProductClose(Decay(load), recent, Factor(load));
    Shifted(Decay(load) * recent / ONE, nice * ONE, Factor(load) * recent as real, recent);
  }

  lemma Shifted(q: int, m: int, exact: real, size: int)
    requires CloseTo(q, exact, size)
    ensures CloseTo(q + m, exact + m as real, size)
  {
  }

  lemma ProductClose(d: int, recent: int, f: real)
    requires d as real <= f * 65536.0 <= d as real + 1.0
    ensures CloseTo(d * recent / ONE, f * recent as real, recent)
  {
    var n := d * recent;
    ProductAsReal(d, recent);
    FloorClose(n);
    ProductSlack((n / ONE) as real, n as real, d as real, f, recent as real);
  }

  lemma ProductSlack(q: real, n: real, d: real, f: real, r: real)
    requires d <= f * 65536.0 <= d + 1.0 && n == d * r && 0.0 <= n - q * 65536.0 <= 65536.0
    ensures var slack := 1.0 + (if r >= 0.0 then r else -r) / 65536.0; -slack <= q - f * r <= slack
  {
    var gap := f * 65536.0 - d;
    GapIsBounded(gap, r);
    Spread(f, d, r);
    WithinSlack(q, n, gap * r, f * r, r);
  }

  lemma FloorClose(n: int)
    ensures 0.0 <= n as real - (n / ONE) as real * 65536.0 <= 65536.0
  {
    assert n == ONE * (n / ONE) + n % ONE;
  }

  lemma WithinSlack(q: real, n: real, gap: real, exact: real, r: real)
    requires 0.0 <= n - q * 65536.0 <= 65536.0 && exact * 65536.0 == n + gap
    requires if r >= 0.0 then 0.0 <= gap <= r else r <= gap <= 0.0
    ensures var slack := 1.0 + (if r >= 0.0 then r else -r) / 65536.0; -slack <= q - exact <= slack
  {
  }

  lemma GapIsBounded(gap: real, r: real)
    requires 0.0 <= gap <= 1.0
    ensures if r >= 0.0 then 0.0 <= gap * r <= r else r <= gap * r <= 0.0
  {
    if r >= 0.0 {
      MulReal(gap, 1.0, r);
      MulReal(0.0, gap, r);
    } else {
      MulReal(gap, 1.0, -r);
      MulReal(0.0, gap, -r);
      assert gap * -r == -(gap * r);
    }
  }

  lemma Spread(f: real, d: real, r: real)
    ensures (f * r) * 65536.0 == d * r + (f * 65536.0 - d) * r
  {
  }

  // ----- priorities -----

  function Distance(a: int, b: int): int {
    if a >= b then a - b else b - a
  }

  /** PRI_MAX - recent_cpu / 4 - nice * 2, in real arithmetic. */
  function Formula(recent: int, nice: int): real {
    63.0 - Value(recent) / 4.0 - 2.0 * nice as real
  }

  lemma QuarterClose(x: int)
    ensures -1.0 < Trunc(x, 4) as real - x as real / 4.0 < 1.0
  {
    assert x >= 0 ==> x == 4 * (x / 4) + x % 4;
    assert x < 0 ==> -x == 4 * (-x / 4) + -x % 4;
  }

  /** Before clamping the priority is the whole part of the real formula, up to 2^-16. */
  lemma RawIsFormula(recent: int, nice: int)
    ensures var raw := RawPriority(recent, nice) as real;
            raw - 1.0 / 65536.0 < Formula(recent, nice) < raw + 1.0 + 1.0 / 65536.0
  {
    var q := Trunc(recent, 4);
    var x := PRI_MAX * ONE - q - 2 * nice * ONE;
    var raw := x / ONE;
    assert x == ONE * raw + x % ONE;
    QuarterClose(recent);
    assert x as real == 63.0 * 65536.0 - q as real - 2.0 * nice as real * 65536.0;
  }

  /** The priority lies in the range, and no priority of the range is closer to the unclamped one. */
  lemma PriorityIsClosest(recent: int, nice: int, q: int)
    requires 0 <= q <= PRI_MAX
    ensures var p, raw := NewPriority(recent, nice), RawPriority(recent, nice);
            0 <= p <= PRI_MAX && Distance(p, raw) <= Distance(q, raw)
  {
  }

  /** The priority of a thread is that of its recent_cpu. */
  predicate Current(t: Thr) {
    t.priority == NewPriority(t.recent, t.nice)
  }

  /** On every fourth tick the running thread's priority is current, on every hundredth everybody's. */
  lemma CurrentAfterTick(s: Sched, running: int, ready: nat, t: int)
    requires s.load >= 0 && t in s.threads && (s.ticks + 1) % 4 == 0
    requires t == running || (s.ticks + 1) % TIMER_FREQ == 0
    ensures var s' := Step(s, Tick(running, ready)); t in s'.threads && Current(s'.threads[t])
  {
  }

  predicate Renices(e: Event, t: int) {
    e.SetNice? && e.tid == t
  }

  predicate KeepsNice(es: seq<Event>, t: int) {
    forall i :: 0 <= i < |es| ==> !Renices(es[i], t)
  }

  lemma KeepsNiceOn(es: seq<Event>, t: int)
    requires es != [] && KeepsNice(es, t)
    ensures !Renices(es[0], t) && KeepsNice(es[1..], t)
  {
    forall i | 0 <= i < |es[1..]| ensures !Renices(es[1..][i], t) {
      assert es[1..][i] == es[i + 1];
    }
  }

  lemma NotFourth(ticks: nat, more: nat)
    requires ticks % 4 + more < 4
    ensures more >= 1 ==> (ticks + 1) % 4 != 0 && (ticks + 1) % 4 + (more - 1) < 4
  {
  }

  lemma StepKeepsPriority(s: Sched, e: Event, l: int, t: int)
    requires l >= 1 && InRange(s, l) && Allowed(s, e, l) && t in s.threads && !Leaves(e, t) && !Renices(e, t)
    requires e.Tick? ==> (s.ticks + 1) % 4 != 0 || (e.running != t && (s.ticks + 1) % TIMER_FREQ != 0)
    ensures var s' := Step(s, e); t in s'.threads && s'.threads[t].priority == s.threads[t].priority
    ensures var s' := Step(s, e); s'.threads[t].nice == s.threads[t].nice
  {
    if e.Tick? && (s.ticks + 1) % TIMER_FREQ == 0 {
      MultipleOfFour(s.ticks + 1);
    }
  }

  lemma MultipleOfFour(n: nat)
    requires n % TIMER_FREQ == 0
    ensures n % 4 == 0
  {
    assert n == 100 * (n / 100) == 4 * (25 * (n / 100));
  }

  /** In between, priorities stay: a thread keeps its priority through any events but its own exit, its
      own change of nice, and the updates of every fourth tick. */
  lemma {:induction false} PriorityStays(s: Sched, es: seq<Event>, l: int, t: int)
    requires l >= 1 && InRange(s, l) && AllowedRun(s, es, l) && t in s.threads && Stays(es, t)
    requires KeepsNice(es, t) && s.ticks % 4 + Ticks(es) < 4
    ensures t in Run(s, es, l).threads && Run(s, es, l).threads[t].priority == s.threads[t].priority
    decreases |es|
  {
    if es != [] {
      StaysOn(es, t);
      KeepsNiceOn(es, t);
      RunNext(s, es, l);
      NotFourth(s.ticks, Ticks(es));
      StepKeepsPriority(s, es[0], l, t);
      StepSamples(s, es[0]);
      PriorityStays(Step(s, es[0]), es[1..], l, t);
    }
  }

  /** A per-second update: the load is the next average, every thread decays by the new factor, and its
      priority is current. */
  lemma SecondIsFormula(s: Sched, running: int, ready: nat, l: int, t: int)
    requires l >= 1 && InRange(s, l) && ready <= l && t in s.threads && (s.ticks + 1) % TIMER_FREQ == 0
    ensures var s' := Step(s, Tick(running, ready));
            var charged := s.threads[t].recent + if t == running then ONE else 0;
            && s'.load == NewLoad(s.load, ready) && s'.load >= 0 && t in s'.threads
            && s'.threads[t].nice == s.threads[t].nice && Current(s'.threads[t])
            && CloseTo(s'.threads[t].recent, ExactRecent(s'.load, charged, s.threads[t].nice), charged)
  {
    LoadBounded(s.load, ready, l);
    var charged := s.threads[t].recent + if t == running then ONE else 0;
    RecentIsClose(NewLoad(s.load, ready), charged, s.threads[t].nice);
    TickAtSecond(s, running, ready, t);
  }

  lemma TickAtSecond(s: Sched, running: int, ready: nat, t: int)
    requires s.load >= 0 && NewLoad(s.load, ready) >= 0 && t in s.threads && (s.ticks + 1) % TIMER_FREQ == 0
    ensures var s' := Step(s, Tick(running, ready));
            var load, old_ := NewLoad(s.load, ready), s.threads[t];
            var charged := old_.recent + if t == running then ONE else 0;
            && s'.load == load && t in s'.threads
            && s'.threads[t] == Reprioritize(old_.(recent := NewRecent(load, charged, old_.nice)))
  {
    var s1 := Sched(s.ticks + 1, s.load, Charge(s.threads, running));
    var s2 := Second(s1, ready);
    assert s2.threads[t] == Reprioritize(DecayAll(s1.threads, s2.load)[t]);
  }
}
