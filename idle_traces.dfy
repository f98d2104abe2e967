/**
 * Runs of the idle monitor over a sequence of externally driven steps
 * (interaction events, timer firings, teardown), and what the hook promises
 * about them: teardown is final, activity opens a quiet window, and while the
 * user stays idle eviction recurs with a fixed period.
 */
module IdleTraces {
  import opened IdleCacheEviction

  /**
   * One thing that can happen to a mounted hook, with its clock readings. A
   * timer firing reads the clock for the idle test (`now`) and, if it evicts,
   * again for the reset once the external calls have returned (`resetNow`).
   */
  datatype Step =
    | Event(kind: ActivityEvent, now: int)
    | TimerTick(now: int, resetNow: int)
    | Teardown

  function Apply(s: MonitorState, opts: Options, step: Step): MonitorState
  {
    match step
    case Event(kind, now) => ActivityStep(s, kind, now)
    case TimerTick(now, resetNow) => TickStep(s, opts, now, resetNow)
    case Teardown => DisposeStep(s)
  }

  /** The state after the steps, in order. */
  function Run(s: MonitorState, opts: Options, steps: seq<Step>): MonitorState
    decreases |steps|
  {
    if steps == [] then s else Run(Apply(s, opts, steps[0]), opts, steps[1..])
  }

  /**
   * Timer firings `interval` apart, the first one `interval` after `start`,
   * one per entry of `delays`: firing `i` tests at `start + (i + 1) * interval`
   * and, if it evicts, resets `delays[i]` milliseconds later, the time the
   * external calls took.
   */
  function Ticks(start: int, interval: int, delays: seq<nat>): (r: seq<Step>)
    ensures |r| == |delays|
  {
    if delays == [] then []
    else
      var n := |delays|;
      Ticks(start, interval, delays[..n - 1]) + [TimerTick(start + n * interval, start + n * interval + delays[n - 1])]
  }

  /** Firing `i` of `Ticks` tests at `start + (i + 1) * interval` and resets `delays[i]` later. */
  lemma {:induction false} TicksAt(start: int, interval: int, delays: seq<nat>, i: nat)
    requires i < |delays|
    ensures Ticks(start, interval, delays)[i]
      == TimerTick(start + (i + 1) * interval, start + (i + 1) * interval + delays[i])
    decreases |delays|
  {
    var n := |delays|;
    if i < n - 1 {
      TicksAt(start, interval, delays[..n - 1], i);
    }
  }

  /** The external calls of `n` evictions in a row. */
  function Repeat(block: seq<Effect>, n: nat): seq<Effect>
  {
    if n == 0 then [] else Repeat(block, n - 1) + block
  }

  /** Every step is a teardown or happens at a time in `[lo, hi]`. */
  ghost predicate TimesWithin(steps: seq<Step>, lo: int, hi: int)
  {
    forall i | 0 <= i < |steps| :: steps[i].Teardown? || lo <= steps[i].now <= hi
  }

  /** The effect log is a sequence of whole evictions: each GC call directly followed by the callback when present. */
  ghost predicate WellFormedLog(log: seq<Effect>, hasOnCacheClear: bool)
  {
    log == Repeat(EvictionEffects(hasOnCacheClear), Count(log, CacheGc))
  }

  // ---------------------------------------------------------------------------
  // Structural facts

  lemma {:induction false} RunAppend(s: MonitorState, opts: Options, a: seq<Step>, b: seq<Step>)
    ensures Run(s, opts, a + b) == Run(Run(s, opts, a), opts, b)
    decreases |a|
  {
    if a == [] {
      assert a + b == b;
    } else {
      assert (a + b)[0] == a[0];
      assert (a + b)[1..] == a[1..] + b;
      RunAppend(Apply(s, opts, a[0]), opts, a[1..], b);
    }
  }

  lemma RunLast(s: MonitorState, opts: Options, a: seq<Step>, step: Step)
    ensures Run(s, opts, a + [step]) == Apply(Run(s, opts, a), opts, step)
  {
    RunAppend(s, opts, a, [step]);
  }

  lemma {:induction false} RepeatCount(hasOnCacheClear: bool, n: nat)
    ensures Count(Repeat(EvictionEffects(hasOnCacheClear), n), CacheGc) == n
    ensures Count(Repeat(EvictionEffects(hasOnCacheClear), n), CacheCleared) == (if hasOnCacheClear then n else 0)
  {
    if n > 0 {
      var e := EvictionEffects(hasOnCacheClear);
      RepeatCount(hasOnCacheClear, n - 1);
      CountAppend(Repeat(e, n - 1), e, CacheGc);
      CountAppend(Repeat(e, n - 1), e, CacheCleared);
    }
  }

  // ---------------------------------------------------------------------------
  // Teardown

  /** After teardown no step changes the cell, the GC count or the callback count. */
  lemma {:induction false} DisposedIsFinal(s: MonitorState, opts: Options, steps: seq<Step>)
    requires s.disposed
    ensures Run(s, opts, steps) == s
    decreases |steps|
  {
    if steps != [] {
      DisposedStepsAreNoOps(s, opts, if steps[0].Event? then steps[0].kind else Click,
                            if steps[0].Teardown? then 0 else steps[0].now,
                            if steps[0].TimerTick? then steps[0].resetNow else 0);
      DisposedIsFinal(Apply(s, opts, steps[0]), opts, steps[1..]);
    }
  }

  /** Whatever happened before, teardown followed by anything leaves the torn-down state. */
  lemma NothingAfterTeardown(s: MonitorState, opts: Options, before: seq<Step>, after: seq<Step>)
    ensures var d := Run(s, opts, before + [Teardown]);
      && Run(s, opts, before + [Teardown] + after) == d
      && d.disposed
      && GcCalls(Run(s, opts, before + [Teardown] + after)) == GcCalls(Run(s, opts, before))
      && ClearCalls(Run(s, opts, before + [Teardown] + after)) == ClearCalls(Run(s, opts, before))
  {
    RunAppend(s, opts, before + [Teardown], after);
    RunLast(s, opts, before, Teardown);
    DisposedIsFinal(Run(s, opts, before + [Teardown]), opts, after);
  }

  // ---------------------------------------------------------------------------
  // Activity opens a quiet window

  /**
   * While every step happens within `minimumIdleMs` of a time `t` no later
   * than the last activity, no eviction happens.
   */
  lemma {:induction false} QuietWindow(s: MonitorState, opts: Options, t: int, steps: seq<Step>)
    requires t <= s.lastActiveTime
    requires TimesWithin(steps, t, t + opts.minimumIdleMs)
    ensures Run(s, opts, steps).effects == s.effects
    ensures t <= Run(s, opts, steps).lastActiveTime
    decreases |steps|
  {
    if steps != [] {
      assert steps[0].Teardown? || t <= steps[0].now <= t + opts.minimumIdleMs;
      var s' := Apply(s, opts, steps[0]);
      assert s'.effects == s.effects && t <= s'.lastActiveTime;
      assert TimesWithin(steps[1..], t, t + opts.minimumIdleMs) by {
        forall i | 0 <= i < |steps[1..]|
          ensures steps[1..][i].Teardown? || t <= steps[1..][i].now <= t + opts.minimumIdleMs
        {
          assert steps[1..][i] == steps[i + 1];
        }
      }
      QuietWindow(s', opts, t, steps[1..]);
    }
  }

  /**
   * Activity at `t` means no tick at a time in `[t, t + minimumIdleMs]`
   * evicts, whatever the idle history before `t`.
   */
  lemma ActivityOpensQuietWindow(s: MonitorState, opts: Options, kind: ActivityEvent, t: int, steps: seq<Step>)
    requires TimesWithin(steps, t, t + opts.minimumIdleMs)
    ensures GcCalls(Run(s, opts, [Event(kind, t)] + steps)) == GcCalls(s)
    ensures ClearCalls(Run(s, opts, [Event(kind, t)] + steps)) == ClearCalls(s)
  {
    RunAppend(s, opts, [Event(kind, t)], steps);
    var a := ActivityStep(s, kind, t);
    assert Run(s, opts, [Event(kind, t)]) == a;
    if s.disposed {
      DisposedIsFinal(a, opts, steps);
    } else {
      QuietWindow(a, opts, t, steps);
    }
  }

  /** No step within `minimumIdleMs` of mounting evicts. */
  lemma NoEvictionSoonAfterMount(opts: Options, now: int, steps: seq<Step>)
    requires TimesWithin(steps, now, now + opts.minimumIdleMs)
    ensures GcCalls(Run(Init(now), opts, steps)) == 0
    ensures ClearCalls(Run(Init(now), opts, steps)) == 0
  {
    QuietWindow(Init(now), opts, now, steps);
  }

  // ---------------------------------------------------------------------------
  // Eviction while the user stays idle

  /**
   * Ticks `checkInterval` apart, starting from `start`, whose last test is
   * still within the threshold of the cell change nothing, however long
   * the external calls would take.
   */
  lemma {:induction false} QuietTicks(s: MonitorState, opts: Options, start: int, delays: seq<nat>)
    requires opts.checkInterval >= 0
    requires start + |delays| * opts.checkInterval - s.lastActiveTime <= opts.minimumIdleMs
    ensures Run(s, opts, Ticks(start, opts.checkInterval, delays)) == s
    decreases |delays|
  {
    if delays != [] {
      var ci, n := opts.checkInterval, |delays|;
      assert n * ci == (n - 1) * ci + ci;
      QuietTicks(s, opts, start, delays[..n - 1]);
      RunLast(s, opts, Ticks(start, ci, delays[..n - 1]), TimerTick(start + n * ci, start + n * ci + delays[n - 1]));
    }
  }

  /**
   * While the user stays idle, ticks `checkInterval` apart each evict as long
   * as every eviction's external calls take less than
   * `checkInterval - minimumIdleMs` milliseconds (so only when
   * `checkInterval > minimumIdleMs`): `n` ticks make `n` whole evictions and
   * leave the cell at the last reset reading.
   */
  lemma {:induction false} RecurringEviction(s: MonitorState, opts: Options, start: int, delays: seq<nat>)
    requires !s.disposed
    requires s.lastActiveTime <= start
    requires forall i | 0 <= i < |delays| :: delays[i] < opts.checkInterval - opts.minimumIdleMs
    ensures var r := Run(s, opts, Ticks(start, opts.checkInterval, delays));
      && r.effects == s.effects + Repeat(EvictionEffects(opts.hasOnCacheClear), |delays|)
      && !r.disposed
      && r.lastActiveTime == if delays == [] then s.lastActiveTime
                             else start + |delays| * opts.checkInterval + delays[|delays| - 1]
    decreases |delays|
  {
    var ci, e := opts.checkInterval, EvictionEffects(opts.hasOnCacheClear);
    if delays == [] {
      assert s.effects + [] == s.effects;
    } else {
      var n := |delays|;
      var prefix := delays[..n - 1];
      RecurringEviction(s, opts, start, prefix);
      var p := Run(s, opts, Ticks(start, ci, prefix));
      assert n * ci == (n - 1) * ci + ci;
      assert n > 1 ==> p.lastActiveTime == start + (n - 1) * ci + delays[n - 2];
      assert CheckIdleTime(start + n * ci, p.lastActiveTime, opts.minimumIdleMs);
      RunLast(s, opts, Ticks(start, ci, prefix), TimerTick(start + n * ci, start + n * ci + delays[n - 1]));
      assert s.effects + Repeat(e, n - 1) + e == s.effects + Repeat(e, n);
    }
  }

  /** The counting form of RecurringEviction. */
  lemma RecurringEvictionCounts(s: MonitorState, opts: Options, start: int, delays: seq<nat>)
    requires !s.disposed
    requires s.lastActiveTime <= start
    requires forall i | 0 <= i < |delays| :: delays[i] < opts.checkInterval - opts.minimumIdleMs
    ensures GcCalls(Run(s, opts, Ticks(start, opts.checkInterval, delays))) == GcCalls(s) + |delays|
    ensures ClearCalls(Run(s, opts, Ticks(start, opts.checkInterval, delays)))
      == ClearCalls(s) + (if opts.hasOnCacheClear then |delays| else 0)
  {
    var e := Repeat(EvictionEffects(opts.hasOnCacheClear), |delays|);
    RecurringEviction(s, opts, start, delays);
    RepeatCount(opts.hasOnCacheClear, |delays|);
    CountAppend(s.effects, e, CacheGc);
    CountAppend(s.effects, e, CacheCleared);
  }

  /**
   * The exact wait for the next eviction while idle. The ticks fire on the
   * grid `start + i * checkInterval`, and the cell lags the grid by
   * `lag = lastActiveTime - start` (how long the previous eviction's calls
   * took, or when the last activity was). Then the first
   * `k = (minimumIdleMs + lag) / checkInterval` ticks change nothing, and
   * tick `k + 1`, at `start + |delays| * checkInterval`, evicts once and
   * resets the cell to its own reset reading.
   * With no lag that is every `minimumIdleMs / checkInterval + 1` ticks.
   */
  lemma IdleEvictionPeriod(s: MonitorState, opts: Options, start: int, delays: seq<nat>)
    requires !s.disposed
    requires opts.checkInterval > 0 && opts.minimumIdleMs >= 0
    requires start <= s.lastActiveTime
    requires |delays| == (opts.minimumIdleMs + (s.lastActiveTime - start)) / opts.checkInterval + 1
    ensures var k := |delays| - 1;
      && Run(s, opts, Ticks(start, opts.checkInterval, delays[..k])) == s
      && Run(s, opts, Ticks(start, opts.checkInterval, delays))
         == MonitorState(start + |delays| * opts.checkInterval + delays[k],
                         s.effects + EvictionEffects(opts.hasOnCacheClear), false)
  {
    var ci, k := opts.checkInterval, |delays| - 1;
    var t := start + |delays| * ci;
    var prefix := Ticks(start, ci, delays[..k]);
    DivisionBounds(opts.minimumIdleMs + (s.lastActiveTime - start), ci);
    QuietTicks(s, opts, start, delays[..k]);
    assert Ticks(start, ci, delays) == prefix + [TimerTick(t, t + delays[k])];
    RunLast(s, opts, prefix, TimerTick(t, t + delays[k]));
  }

  /** `x / d` is the number of whole `d`s in `x`. */
  lemma DivisionBounds(x: int, d: int)
    requires x >= 0 && d > 0
    ensures (x / d) * d <= x < (x / d + 1) * d
  {
    assert x == (x / d) * d + x % d;
    assert (x / d + 1) * d == (x / d) * d + d;
  }

  /** Every run keeps the effect log a sequence of whole evictions. */
  lemma {:induction false} RunKeepsLogWellFormed(s: MonitorState, opts: Options, steps: seq<Step>)
    requires WellFormedLog(s.effects, opts.hasOnCacheClear)
    ensures WellFormedLog(Run(s, opts, steps).effects, opts.hasOnCacheClear)
    decreases |steps|
  {
    if steps != [] {
      var s' := Apply(s, opts, steps[0]);
      if s'.effects != s.effects {
        var e := EvictionEffects(opts.hasOnCacheClear);
        assert s'.effects == s.effects + e;
        CountAppend(s.effects, e, CacheGc);
      }
      RunKeepsLogWellFormed(s', opts, steps[1..]);
    }
  }

  /**
   * From mounting on, the callback is called exactly as often as the GC when
   * it is present and never otherwise.
   */
  lemma CallbackFollowsEveryGc(opts: Options, now: int, steps: seq<Step>)
    ensures var r := Run(Init(now), opts, steps);
      ClearCalls(r) == (if opts.hasOnCacheClear then GcCalls(r) else 0)
  {
    var r := Run(Init(now), opts, steps);
    assert WellFormedLog([], opts.hasOnCacheClear);
    RunKeepsLogWellFormed(Init(now), opts, steps);
    RepeatCount(opts.hasOnCacheClear, GcCalls(r));
  }

  // ---------------------------------------------------------------------------
  // Example runs

  /**
   * checkInterval 1000, minimumIdleMs 5000, mounted at 0, no activity: the
   * ticks up to 5000 do nothing and the tick at 6000 evicts once, however
   * long the calls take.
   */
  lemma ScenarioIdleForSixSeconds(delays: seq<nat>)
    requires |delays| == 6
    ensures var opts := Options(1000, 5000, true);
      && GcCalls(Run(Init(0), opts, Ticks(0, 1000, delays[..5]))) == 0
      && GcCalls(Run(Init(0), opts, Ticks(0, 1000, delays))) == 1
      && ClearCalls(Run(Init(0), opts, Ticks(0, 1000, delays))) == 1
  {
    var opts := Options(1000, 5000, true);
    assert (5000 + 0) / 1000 + 1 == 6;
    IdleEvictionPeriod(Init(0), opts, 0, delays);
    assert Run(Init(0), opts, Ticks(0, 1000, delays)).effects == [] + EvictionEffects(true) == EvictionEffects(true);
  }

  /**
   * Same options, a click at 4000: the ticks at 5000 through 9000 do not
   * evict, where without the click the tick at 6000 would
   * (ScenarioIdleForSixSeconds).
   */
  lemma ScenarioClickDefersEviction(before: seq<nat>, after: seq<nat>)
    requires |before| == 4 && |after| == 5
    ensures var opts := Options(1000, 5000, true);
      GcCalls(Run(Init(0), opts, Ticks(0, 1000, before) + [Event(Click, 4000)] + Ticks(4000, 1000, after))) == 0
  {
    var opts := Options(1000, 5000, true);
    var a, b := Ticks(0, 1000, before), Ticks(4000, 1000, after);
    QuietTicks(Init(0), opts, 0, before);
    assert a + [Event(Click, 4000)] + b == a + ([Event(Click, 4000)] + b);
    RunAppend(Init(0), opts, a, [Event(Click, 4000)] + b);
    assert TimesWithin(b, 4000, 9000) by {
      forall i | 0 <= i < |b| ensures b[i].Teardown? || 4000 <= b[i].now <= 9000 {
        TicksAt(4000, 1000, after, i);
      }
    }
    ActivityOpensQuietWindow(Init(0), opts, Click, 4000, b);
  }

  /**
   * checkInterval 2000, minimumIdleMs 1000, mounted at 0, no activity: every
   * tick evicts, as long as each eviction's calls take under 1000 ms.
   */
  lemma ScenarioEveryTickEvicts(delays: seq<nat>)
    requires forall i | 0 <= i < |delays| :: delays[i] < 1000
    ensures GcCalls(Run(Init(0), Options(2000, 1000, true), Ticks(0, 2000, delays))) == |delays|
  {
    RecurringEvictionCounts(Init(0), Options(2000, 1000, true), 0, delays);
  }

  /**
   * checkInterval 1001, minimumIdleMs 1000, mounted at 0: the tick at 1001
   * evicts, but when its calls take 2 ms the reset reads 1003 and the tick at
   * 2002 sees only 999 ms of idleness; with instantaneous calls it evicts.
   */
  lemma ScenarioSlowCollectionSkipsTick()
    ensures var opts := Options(1001, 1000, false);
      && GcCalls(Run(Init(0), opts, Ticks(0, 1001, [2, 0]))) == 1
      && GcCalls(Run(Init(0), opts, Ticks(0, 1001, [0, 0]))) == 2
  {
    var opts := Options(1001, 1000, false);
    var slow := Ticks(0, 1001, [2, 0]);
    assert slow == [TimerTick(1001, 1003), TimerTick(2002, 2002)];
    EvictingTick(Init(0), opts, 1001, 1003);
    RunLast(Init(0), opts, [TimerTick(1001, 1003)], TimerTick(2002, 2002));
    assert [TimerTick(1001, 1003)] + [TimerTick(2002, 2002)] == slow;
    RecurringEvictionCounts(Init(0), opts, 0, [0, 0]);
  }
}
