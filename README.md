# Idle cache eviction — a Dafny model

`useIdleCacheEviction` is a React hook for Apollo Client applications. It
keeps the time of the user's last interaction in a mutable ref cell. Five
window events (`touchstart`, `click`, `keypress`, `scroll`, `mousemove`)
overwrite that cell with the current time. An interval timer fires every
`checkInterval` milliseconds. When strictly more than `minimumIdleMs`
milliseconds have passed since the last activity, it calls
`client.cache.gc()`, then calls `onCacheClear` if it was supplied, then
resets the cell to the current time. Unmounting the hook removes the
listeners and clears the interval.

This project models that state machine in two modules:

- `IdleCacheEviction` (`idle_cache_eviction.dfy`) holds the data model and the operations.
  - The idle test `CheckIdleTime` is a pure function.
  - The abstract state `MonitorState` holds the cell, a log of external calls and a torn-down flag.
  - The step functions `ActivityStep`, `TickStep` and `DisposeStep` specify one event, one timer firing and teardown.
  - The class `IdleMonitor` holds the cell `lastActiveTime`, the counters `gcCalls` and `clearCalls`, the flag `disposed` and a ghost log of the calls in order. Its methods `Activity`, `Tick` and `Dispose` update those fields in place, and each is proved to move the state exactly as its step function does.
- `IdleTraces` (`idle_traces.dfy`) runs the step functions over sequences of steps and proves what the hook promises across several steps:
  - teardown is final;
  - activity opens a quiet window of `minimumIdleMs`;
  - while the user stays idle, the wait for the next eviction is exactly `(minimumIdleMs + lag) / checkInterval + 1` ticks, where `lag` is how far the cell trails the tick grid;
  - every tick evicts while idle as long as each eviction's external calls take less than `checkInterval - minimumIdleMs` milliseconds (`RecurringEviction`); conversely, one step at a time, the tick after an eviction evicts only if the delay of that eviction's reset is less than `checkInterval - minimumIdleMs` (`NextTickAfterEviction`);
  - `onCacheClear` follows every GC call;
  - a few example runs: six seconds idle, a click that defers eviction, eviction on every tick, and a slow collection that makes the next tick skip.

Every reading of the clock is an explicit integer parameter (milliseconds),
and ticks are driven from outside. An evicting tick reads the clock twice:

- `now` is read by the idle test (src/useIdleCacheEviction.ts:43).
- `resetNow` is read by the reset (src/useIdleCacheEviction.ts:54, called at line 71), after `gc()` and `onCacheClear()` have returned.

The difference `resetNow - now` is the time those calls took. Sequences of
ticks (`Ticks`) carry one such delay per firing. The GC and the callback are
recorded as entries `CacheGc` and `CacheCleared` of the effect log, which is
how the model states their order. The operations accept any clock readings,
as the source does. Lemmas that need time to move forward say so in a
`requires`.

Points where the code's behaviour is easy to misread, and what the model does:

- The fifth event is `mousemove`, not a pointer event (src/useIdleCacheEviction.ts:61).
- `onCacheClear` is modelled as optional, because the code guards its call, although its type declares it required (src/useIdleCacheEviction.ts:20, 67).
- The code does not validate `checkInterval` or `minimumIdleMs`. The operations therefore have no requires on them. Only the period lemmas require `checkInterval > 0` and `minimumIdleMs >= 0`.
- Eviction is not once per idle episode. After each eviction the cell is reset, so a user who stays idle keeps seeing evictions. When the external calls take no time, they come every `minimumIdleMs / checkInterval + 1` ticks. When the calls take time, the reset trails the tick grid by that time, and the next eviction comes `(minimumIdleMs + lag) / checkInterval + 1` ticks later, which can be later than with instantaneous calls (`IdleTraces.IdleEvictionPeriod`, `IdleTraces.RecurringEviction`, `IdleTraces.ScenarioSlowCollectionSkipsTick`).

## Model

| member | source | states |
|---|---|---|
| IdleCacheEviction.CheckIdleTime | src/useIdleCacheEviction.ts:40-43 | the idle test on an explicit clock reading `now`: strictly more than `minimumIdleMs` since `lastActiveTime`, so an elapsed time exactly equal to the threshold is not idle (further properties in CheckIdleTimeIsStrict and CheckIdleTimeMonotone) |
| IdleCacheEviction.CheckIdleTimeIsStrict | src/useIdleCacheEviction.ts:40-43 | the idle test holds iff `now - lastActiveTime > minimumIdleMs`; an elapsed time equal to the threshold does not qualify, one millisecond more does |
| IdleCacheEviction.CheckIdleTimeMonotone | src/useIdleCacheEviction.ts:40-43 | once the test holds at some time it holds at every later time with the same last activity |
| IdleCacheEviction.EvictionEffects | src/useIdleCacheEviction.ts:66-67 | one eviction makes exactly one GC call, first, and one callback call iff the callback is present |
| IdleCacheEviction.Init | src/useIdleCacheEviction.ts:50 | on mount nothing has been called yet |
| IdleCacheEviction.ActivityStep | src/useIdleCacheEviction.ts:53-61 | an event never touches the effect log or the torn-down flag, and on a live hook sets the cell to `now` |
| IdleCacheEviction.TickStep | src/useIdleCacheEviction.ts:64-72 | a tick only appends to the effect log, keeps the torn-down flag, and leaves the cell either unchanged or at the reset reading `resetNow` |
| IdleCacheEviction.DisposeStep | src/useIdleCacheEviction.ts:36 | teardown marks the hook torn down and changes neither the cell nor the log |
| IdleCacheEviction.ActivityOverwritesAndIsIdempotent | src/useIdleCacheEviction.ts:53-55 | on a live hook an event sets the cell to `now` whatever it held before; a second event at the same instant changes nothing |
| IdleCacheEviction.ActivityIgnoresEventKind | src/useIdleCacheEviction.ts:57-61 | all five event kinds have the same effect |
| IdleCacheEviction.QuietTickChangesNothing | src/useIdleCacheEviction.ts:65 | a tick that does not exceed the threshold leaves the whole state unchanged: no GC call, no callback call, same cell |
| IdleCacheEviction.EvictingTick | src/useIdleCacheEviction.ts:65-71 | on a live hook a tick that exceeds the threshold appends GC then callback (only if present) to the log, adds one to the GC count and one or zero to the callback count, and sets the cell to the clock reading taken after those calls |
| IdleCacheEviction.NextTickAfterEviction | src/useIdleCacheEviction.ts:65-71 | after an eviction whose test read `t` and whose reset read `resetNow >= t`, the tick at `t + checkInterval` evicts iff `t + checkInterval - resetNow > minimumIdleMs`; so it evicts only if `checkInterval > minimumIdleMs`, and exactly then when the calls took no time |
| IdleCacheEviction.DisposedStepsAreNoOps | src/useIdleCacheEviction.ts:36 | on a torn-down hook teardown again, a tick or an event changes nothing |
| IdleCacheEviction.IdleMonitor.constructor | src/useIdleCacheEviction.ts:45-51 | a new monitor stores its options, holds the mount time in the cell and has made no calls |
| IdleCacheEviction.IdleMonitor.Activity | src/useIdleCacheEviction.ts:53-55 | the shared event handler moves the state as `ActivityStep` does: the cell becomes `now` unless torn down, counters unchanged |
| IdleCacheEviction.IdleMonitor.Tick | src/useIdleCacheEviction.ts:64-72 | the interval callback moves the state as `TickStep` does: exact new counters and cell in both branches, the cell set to the reset reading taken after the calls, counters kept equal to the log's counts |
| IdleCacheEviction.IdleMonitor.Dispose | src/useIdleCacheEviction.ts:36 | the cleanup sets the torn-down flag and changes nothing else |
| IdleTraces.Ticks | src/useIdleCacheEviction.ts:64-73 | one timer firing per delay entry |
| IdleTraces.TicksAt | src/useIdleCacheEviction.ts:64-73 | firing `i` tests at `start + (i + 1) * checkInterval` and resets `delays[i]` milliseconds later |
| IdleTraces.DisposedIsFinal | src/useIdleCacheEviction.ts:36 | from a torn-down state any sequence of steps leaves the state exactly as it was |
| IdleTraces.NothingAfterTeardown | src/useIdleCacheEviction.ts:36 | whatever happened before teardown and whatever follows it, the GC count, the callback count and the cell stay as they were at teardown |
| IdleTraces.QuietWindow | src/useIdleCacheEviction.ts:54 | if every step happens within `[t, t + minimumIdleMs]` and the last activity is no earlier than `t`, the steps make no external call |
| IdleTraces.ActivityOpensQuietWindow | src/useIdleCacheEviction.ts:43 | after activity at `t`, steps within `[t, t + minimumIdleMs]` make no GC and no callback call, whatever the idle history before `t` |
| IdleTraces.NoEvictionSoonAfterMount | src/useIdleCacheEviction.ts:50 | no step within `minimumIdleMs` of mounting evicts |
| IdleTraces.QuietTicks | src/useIdleCacheEviction.ts:65 | ticks `checkInterval` apart whose last test is still within the threshold of the cell leave the state unchanged, whatever the delays |
| IdleTraces.RecurringEviction | src/useIdleCacheEviction.ts:64-71 | with no activity, if every eviction's calls take less than `checkInterval - minimumIdleMs`, then `n` ticks make `n` whole evictions and leave the cell at the last reset reading |
| IdleTraces.RecurringEvictionCounts | src/useIdleCacheEviction.ts:64-71 | under the same delay bound, `n` ticks add `n` GC calls and `n` or zero callback calls |
| IdleTraces.IdleEvictionPeriod | src/useIdleCacheEviction.ts:64-71 | with the cell trailing the tick grid by `lag >= 0`, the first `(minimumIdleMs + lag) / checkInterval` ticks change nothing and the next one evicts once and resets the cell to its own reset reading, whatever the delays |
| IdleTraces.RunKeepsLogWellFormed | src/useIdleCacheEviction.ts:66-67 | every run keeps the log a sequence of whole evictions, each GC call directly followed by the callback when present |
| IdleTraces.CallbackFollowsEveryGc | src/useIdleCacheEviction.ts:66-67 | from mounting on, the callback has been called exactly as often as the GC if it is present and never otherwise |
| IdleTraces.ScenarioIdleForSixSeconds | src/useIdleCacheEviction.ts:64-71 | checkInterval 1000, minimumIdleMs 5000, no activity: no eviction through the tick at 5000, exactly one GC and one callback call by the tick at 6000, however long the calls take |
| IdleTraces.ScenarioClickDefersEviction | src/useIdleCacheEviction.ts:53-65 | same options, a click at 4000: the ticks at 5000 through 9000 do not evict, where without the click the tick at 6000 does |
| IdleTraces.ScenarioEveryTickEvicts | src/useIdleCacheEviction.ts:64-71 | checkInterval 2000, minimumIdleMs 1000, no activity: every tick evicts as long as each eviction's calls take under 1000 ms |
| IdleTraces.ScenarioSlowCollectionSkipsTick | src/useIdleCacheEviction.ts:65-71 | checkInterval 1001, minimumIdleMs 1000: after an eviction at 1001 whose calls take 2 ms the tick at 2002 does not evict, while with instantaneous calls it does |

## Left out

- React hook machinery (`useRef`, `useCallback`, `useEffect` dependency arrays, re-subscribing and re-creating the interval when options change, src/useIdleCacheEviction.ts:33-37, 76-82): this is framework lifecycle. The model has one mount and one teardown, and the options are fixed for the monitor's lifetime.
- Window event registration and event payloads (src/useIdleCacheEviction.ts:29-38): this is browser I/O. All five listeners become one `Activity` call that carries the event kind; the kind has no effect.
- `setInterval` scheduling (src/useIdleCacheEviction.ts:64-73): ticks are supplied from outside with their time. The model does not guarantee that ticks really happen every `checkInterval`. `checkInterval` appears only in the lemmas that describe regularly spaced ticks (`Ticks`).
- `new Date().getTime()`: each call is replaced by a parameter, `now` for the idle test and the events and `resetNow` for the reset after an eviction. The model does not require time to move forward. Lemmas that rely on it say so in their `requires`.
- `client.cache.gc()` and `onCacheClear` (src/useIdleCacheEviction.ts:66-67): these are foreign code. Each call is recorded as a log entry and a counter. What the calls do, and exceptions they might throw, are not modelled. Callbacks that themselves dispatch window events are not modelled either. The time the calls take is visible only through the reset reading `resetNow`.
- Teardown is modelled as a flag that makes later ticks and events no-ops. In the browser, those callbacks are simply never invoked again.
- Validation of non-positive `checkInterval` or `minimumIdleMs`: the source does not validate them, so the model has none.
- The options are JavaScript numbers (src/useIdleCacheEviction.ts:8,14). The model takes them, and every clock reading, to be integers. `getTime()` returns whole milliseconds, so a fractional `minimumIdleMs` acts like its floor. NaN and Infinity would never evict, and −Infinity would evict on every tick; none of these values is modelled.
