/**
 * The idle-eviction state machine of the `useIdleCacheEviction` hook.
 *
 * The hook keeps one mutable cell, the time of the last user activity. Five
 * window events overwrite it with the current time; a periodic timer compares
 * the elapsed idle time with a threshold and, when it is exceeded, asks the
 * cache to collect garbage, notifies the optional `onCacheClear` callback and
 * resets the cell. Tearing the hook down removes the listeners and cancels the
 * timer.
 *
 * Each reading of the wall clock is an explicit integer parameter
 * (milliseconds). An evicting tick reads the clock twice: `now` for the idle
 * test, and `resetNow` for the reset, which is read only after the external
 * calls have returned. The external calls (`client.cache.gc()` and
 * `onCacheClear()`) are recorded, in order, in an effect log.
 */
module IdleCacheEviction {

  /** The five window events the hook listens to; all share one handler. */
  datatype ActivityEvent = TouchStart | Click | KeyPress | Scroll | MouseMove

  /** An externally visible call made by the timer callback. */
  datatype Effect =
    | CacheGc        // client.cache.gc()
    | CacheCleared   // onCacheClear()

  /** The options of the hook; `hasOnCacheClear` says whether the callback is present. */
  datatype Options = Options(checkInterval: int, minimumIdleMs: int, hasOnCacheClear: bool)

  /** The abstract state of one mounted hook. */
  datatype MonitorState = MonitorState(lastActiveTime: int, effects: seq<Effect>, disposed: bool)

  /** Number of occurrences of `e` in the log. */
  function Count(log: seq<Effect>, e: Effect): nat
  {
    if log == [] then 0 else (if log[0] == e then 1 else 0) + Count(log[1..], e)
  }

  lemma {:induction false} CountAppend(a: seq<Effect>, b: seq<Effect>, e: Effect)
    ensures Count(a + b, e) == Count(a, e) + Count(b, e)
  {
    if a == [] {
      assert a + b == b;
    } else {
      assert (a + b)[1..] == a[1..] + b;
      CountAppend(a[1..], b, e);
    }
  }

  /** Number of `client.cache.gc()` calls recorded in a state. */
  function GcCalls(s: MonitorState): nat { Count(s.effects, CacheGc) }

  /** Number of `onCacheClear()` calls recorded in a state. */
  function ClearCalls(s: MonitorState): nat { Count(s.effects, CacheCleared) }

  /**
   * The idle test: strictly more than `minimumIdleMs` milliseconds have passed
   * since `lastActiveTime`.
   */
  function CheckIdleTime(now: int, lastActiveTime: int, minimumIdleMs: int): (idle: bool)
    ensures now - lastActiveTime == minimumIdleMs ==> !idle
  {
    now - lastActiveTime > minimumIdleMs
  }

  /** The calls one eviction makes: the GC first, then the callback if present. */
  function EvictionEffects(hasOnCacheClear: bool): (r: seq<Effect>)
    ensures |r| >= 1 && r[0] == CacheGc
    ensures Count(r, CacheGc) == 1
    ensures Count(r, CacheCleared) == (if hasOnCacheClear then 1 else 0)
  {
    if hasOnCacheClear then [CacheGc, CacheCleared] else [CacheGc]
  }

  /** The state on mount: the cell holds the mount time, nothing has been called. */
  function Init(now: int): (s: MonitorState)
    ensures GcCalls(s) == 0 && ClearCalls(s) == 0
  {
    MonitorState(now, [], false)
  }

  /**
   * An interaction event at time `now`. Once the hook is torn down its
   * listeners are gone and the event has no effect.
   */
  function ActivityStep(s: MonitorState, kind: ActivityEvent, now: int): (r: MonitorState)
    ensures r.effects == s.effects && r.disposed == s.disposed
    ensures !s.disposed ==> r.lastActiveTime == now
  {
    if s.disposed then s else s.(lastActiveTime := now)
  }

  /**
   * One firing of the interval callback: the idle test reads the clock as
   * `now`; if it evicts, the reset reads it again as `resetNow`, after the
   * external calls. After teardown the interval is cleared and nothing happens.
   */
  function TickStep(s: MonitorState, opts: Options, now: int, resetNow: int): (r: MonitorState)
    ensures r.disposed == s.disposed
    ensures s.effects <= r.effects
    ensures r.lastActiveTime == s.lastActiveTime || r.lastActiveTime == resetNow
  {
    if !s.disposed && CheckIdleTime(now, s.lastActiveTime, opts.minimumIdleMs) then
      s.(effects := s.effects + EvictionEffects(opts.hasOnCacheClear), lastActiveTime := resetNow)
    else
      s
  }

  /** Unmounting: removes the listeners and clears the interval. */
  function DisposeStep(s: MonitorState): (r: MonitorState)
    ensures r.disposed
    ensures r.lastActiveTime == s.lastActiveTime && r.effects == s.effects
  {
    s.(disposed := true)
  }

  // ---------------------------------------------------------------------------
  // Properties of single steps

  /** The threshold is strict: an idle time equal to `minimumIdleMs` does not qualify. */
  lemma CheckIdleTimeIsStrict(now: int, lastActiveTime: int, minimumIdleMs: int)
    ensures CheckIdleTime(now, lastActiveTime, minimumIdleMs) <==> now - lastActiveTime > minimumIdleMs
    ensures !CheckIdleTime(lastActiveTime + minimumIdleMs, lastActiveTime, minimumIdleMs)
    ensures CheckIdleTime(lastActiveTime + minimumIdleMs + 1, lastActiveTime, minimumIdleMs)
  {
  }

  /** Once idle, staying idle longer keeps the test true. */
  lemma CheckIdleTimeMonotone(now: int, later: int, lastActiveTime: int, minimumIdleMs: int)
    requires now <= later
    requires CheckIdleTime(now, lastActiveTime, minimumIdleMs)
    ensures CheckIdleTime(later, lastActiveTime, minimumIdleMs)
  {
  }

  /** Activity overwrites the cell whatever it held, and repeating it at the same instant is idempotent. */
  lemma ActivityOverwritesAndIsIdempotent(s: MonitorState, k1: ActivityEvent, k2: ActivityEvent, now: int)
    requires !s.disposed
    ensures ActivityStep(s, k1, now) == MonitorState(now, s.effects, false)
    ensures ActivityStep(ActivityStep(s, k1, now), k2, now) == ActivityStep(s, k1, now)
  {
  }

  /** All five event kinds have the same effect. */
  lemma ActivityIgnoresEventKind(s: MonitorState, k1: ActivityEvent, k2: ActivityEvent, now: int)
    ensures ActivityStep(s, k1, now) == ActivityStep(s, k2, now)
  {
  }

  /** A tick that does not exceed the threshold changes nothing. */
  lemma QuietTickChangesNothing(s: MonitorState, opts: Options, now: int, resetNow: int)
    requires !CheckIdleTime(now, s.lastActiveTime, opts.minimumIdleMs)
    ensures TickStep(s, opts, now, resetNow) == s
    ensures GcCalls(TickStep(s, opts, now, resetNow)) == GcCalls(s)
    ensures ClearCalls(TickStep(s, opts, now, resetNow)) == ClearCalls(s)
  {
  }

  /**
   * A tick that exceeds the threshold calls the GC once, then the callback
   * once if it is present and not at all otherwise, then resets the cell to
   * the clock reading taken after those calls.
   */
  lemma EvictingTick(s: MonitorState, opts: Options, now: int, resetNow: int)
    requires !s.disposed && CheckIdleTime(now, s.lastActiveTime, opts.minimumIdleMs)
    ensures var r := TickStep(s, opts, now, resetNow);
      && r.lastActiveTime == resetNow
      && !r.disposed
      && r.effects == s.effects + (if opts.hasOnCacheClear then [CacheGc, CacheCleared] else [CacheGc])
      && GcCalls(r) == GcCalls(s) + 1
      && ClearCalls(r) == ClearCalls(s) + (if opts.hasOnCacheClear then 1 else 0)
  {
    var r := TickStep(s, opts, now, resetNow);
    CountAppend(s.effects, EvictionEffects(opts.hasOnCacheClear), CacheGc);
    CountAppend(s.effects, EvictionEffects(opts.hasOnCacheClear), CacheCleared);
  }

  /**
   * After an eviction whose test read `t` and whose reset read `resetNow`,
   * with no activity in between, the tick one `checkInterval` later evicts
   * iff `t + checkInterval - resetNow > minimumIdleMs`. So it can evict again
   * only if `checkInterval > minimumIdleMs`, and when the external calls take
   * no time (`resetNow == t`) it does exactly then.
   */
  lemma NextTickAfterEviction(s: MonitorState, opts: Options, t: int, resetNow: int, nextReset: int)
    requires !s.disposed && CheckIdleTime(t, s.lastActiveTime, opts.minimumIdleMs)
    requires t <= resetNow
    ensures var e := TickStep(s, opts, t, resetNow);
      var r := TickStep(e, opts, t + opts.checkInterval, nextReset);
      && (GcCalls(r) == GcCalls(e) + 1 <==> t + opts.checkInterval - resetNow > opts.minimumIdleMs)
      && (GcCalls(r) == GcCalls(e) + 1 ==> opts.checkInterval > opts.minimumIdleMs)
      && (resetNow == t ==> (GcCalls(r) == GcCalls(e) + 1 <==> opts.checkInterval > opts.minimumIdleMs))
  {
    var e := TickStep(s, opts, t, resetNow);
    EvictingTick(s, opts, t, resetNow);
    if t + opts.checkInterval - resetNow > opts.minimumIdleMs {
      EvictingTick(e, opts, t + opts.checkInterval, nextReset);
    }
  }

  /** Teardown is idempotent and, after it, neither a tick nor an event changes anything. */
  lemma DisposedStepsAreNoOps(s: MonitorState, opts: Options, kind: ActivityEvent, now: int, resetNow: int)
    requires s.disposed
    ensures DisposeStep(s) == s
    ensures TickStep(s, opts, now, resetNow) == s
    ensures ActivityStep(s, kind, now) == s
  {
  }

  // ---------------------------------------------------------------------------
  // The hook as an object whose fields change in place

  /**
   * One mounted hook. `lastActiveTime` is the ref cell; `gcCalls` and
   * `clearCalls` count the external calls; the ghost `effects` log records
   * their order.
   */
  class IdleMonitor {
    const checkInterval: int
    const minimumIdleMs: int
    const hasOnCacheClear: bool

    var lastActiveTime: int
    var gcCalls: nat
    var clearCalls: nat
    var disposed: bool
    ghost var effects: seq<Effect>

    /** The counters agree with the log. */
    ghost predicate Valid()
      reads this
    {
      gcCalls == Count(effects, CacheGc) && clearCalls == Count(effects, CacheCleared)
    }

    function Config(): Options
    {
      Options(checkInterval, minimumIdleMs, hasOnCacheClear)
    }

    ghost function State(): MonitorState
      reads this
    {
      MonitorState(lastActiveTime, effects, disposed)
    }

    /** Mounting the hook at time `now`. */
    constructor (checkInterval: int, minimumIdleMs: int, hasOnCacheClear: bool, now: int)
      ensures Valid()
      ensures Config() == Options(checkInterval, minimumIdleMs, hasOnCacheClear)
      ensures State() == Init(now)
      ensures lastActiveTime == now && gcCalls == 0 && clearCalls == 0 && !disposed
    {
      this.checkInterval := checkInterval;
      this.minimumIdleMs := minimumIdleMs;
      this.hasOnCacheClear := hasOnCacheClear;
      lastActiveTime := now;
      gcCalls, clearCalls := 0, 0;
      disposed := false;
      effects := [];
    }

    /** The shared listener of the five window events. */
    method Activity(kind: ActivityEvent, now: int)
      requires Valid()
      modifies this
      ensures Valid()
      ensures State() == ActivityStep(old(State()), kind, now)
      ensures lastActiveTime == (if old(disposed) then old(lastActiveTime) else now)
      ensures gcCalls == old(gcCalls) && clearCalls == old(clearCalls) && disposed == old(disposed)
    {
      if !disposed {
        lastActiveTime := now;
      }
    }

    /**
     * The body of the interval callback: the idle test reads the clock as
     * `now`, the reset after the external calls reads it as `resetNow`.
     */
    method Tick(now: int, resetNow: int)
      requires Valid()
      modifies this
      ensures Valid()
      ensures State() == TickStep(old(State()), Config(), now, resetNow)
      ensures disposed == old(disposed)
      ensures if !old(disposed) && CheckIdleTime(now, old(lastActiveTime), minimumIdleMs) then
          && gcCalls == old(gcCalls) + 1
          && clearCalls == old(clearCalls) + (if hasOnCacheClear then 1 else 0)
          && lastActiveTime == resetNow
        else
          && gcCalls == old(gcCalls)
          && clearCalls == old(clearCalls)
          && lastActiveTime == old(lastActiveTime)
    {
      if !disposed && CheckIdleTime(now, lastActiveTime, minimumIdleMs) {
        CountAppend(effects, [CacheGc], CacheGc);
        CountAppend(effects, [CacheGc], CacheCleared);
        gcCalls := gcCalls + 1;
        effects := effects + [CacheGc];
        if hasOnCacheClear {
          CountAppend(effects, [CacheCleared], CacheGc);
          CountAppend(effects, [CacheCleared], CacheCleared);
          clearCalls := clearCalls + 1;
          effects := effects + [CacheCleared];
        }
        lastActiveTime := resetNow;
      }
    }

    /** The effect cleanups: remove the listeners and clear the interval. */
    method Dispose()
      requires Valid()
      modifies this
      ensures Valid()
      ensures State() == DisposeStep(old(State()))
      ensures disposed
      ensures lastActiveTime == old(lastActiveTime) && gcCalls == old(gcCalls) && clearCalls == old(clearCalls)
    {
      disposed := true;
    }
  }
}
