# Call-site caches of PerformanceOptimizer, modelled in Dafny

This project models two call-site caching adapters of the PerformanceOptimizer
RimWorld mod. Each adapter sits in front of an expensive game query. It gates
the query with a Harmony prefix/postfix pair: the prefix returns `true` ("run
the original query") or `false` ("serve the cached `__result`"), and the
postfix reconciles the cache cell.

- `ForbidCache` models `Optimization_ForbidUtility_IsForbidden`. Its store is
  two-level (`pawnId -> thingId -> cell`), and it is consulted only while a
  reentrancy counter is positive.
- `ToilCounter` models that reentrancy counter (`checkCurrentToilEndOrFailCounter`).
  A prefix on `JobDriver.CheckCurrentToilEndOrFail` increments it. A postfix
  and a finalizer on the same method each decrement it, and reset it to 0 on
  underflow. Counter arithmetic is 32-bit and wraps around like
  `Interlocked.Increment` / `Interlocked.Decrement` (`Int32Arith`).
- `GravEngineCache` models `Optimization_GravshipUtility_GetPlayerGravEngine`.
  Its store is one-level (`mapId -> cell`). A liveness check after a hit can
  force a refresh through the cell's `isRefreshRequired` flag.
- `Cells` keeps the cache cells (`CachedValueTick`, `CachedObjectTick`)
  abstract. A cell is a value of a type parameter, and a `CellOps` record
  supplies a new cell, `SetOrRefresh` and `ProcessResult` as total functions.
  `SetOrRefresh` hands back the cell as it leaves it, because the C# method may
  update the object it is called on.

Every hook is a pure transition function over immutable state: the counter,
`map<int, map<int, C>>` and `map<int, ObjectCell<S>>`. The `__state` that a
prefix passes to its postfix is a `Handle`: the cell plus the key it is stored
under. The postfix writes the processed cell back under that key, unless the
store was cleared in between. The state of the game is a parameter: the ids of
the arguments (`None` for `null`) and, for the grav engine, a `World` that gives
an engine's `MapHeld` map id and its `Destroyed` flag.

In the code, `SetOrRefresh` returning `true` means "the real query must run":
the `IsForbidden` prefix returns that value directly, and the grav-engine
prefix returns `true` on it.

## Model

| member | source | states |
|---|---|---|
| `Int32Arith.Wrap` | 1.6/Source/PerformanceOptimizer/Optimizations/CacheWithRefresh/Optimization_ForbidUtility_IsForbidden.cs:43 | 32-bit results are unchanged in range; `int.MaxValue + 1` wraps to `int.MinValue` and `int.MinValue - 1` wraps to `int.MaxValue` |
| `ToilCounter.Prefix` | 1.6/Source/PerformanceOptimizer/Optimizations/CacheWithRefresh/Optimization_ForbidUtility_IsForbidden.cs:41-44 | entering the guarded region raises the counter by exactly 1, except that `int.MaxValue` wraps to `int.MinValue` |
| `ToilCounter.Postfix` | 1.6/Source/PerformanceOptimizer/Optimizations/CacheWithRefresh/Optimization_ForbidUtility_IsForbidden.cs:46-54 | the counter becomes `old - 1` when `old >= 1` and exactly 0 for other non-minimal values; the result is never negative |
| `ToilCounter.Finalizer` | 1.6/Source/PerformanceOptimizer/Optimizations/CacheWithRefresh/Optimization_ForbidUtility_IsForbidden.cs:56-65 | applies the same clamped decrement as the postfix and returns its exception argument unchanged |
| `ToilCounter.RunStaysNonNegative` | 1.6/Source/PerformanceOptimizer/Optimizations/CacheWithRefresh/Optimization_ForbidUtility_IsForbidden.cs:39-65 | for any sequence of prefix/postfix/finalizer invocations from a non-negative start in which no increment meets `int.MaxValue`, the counter ends between 0 and the start plus the increments |
| `ToilCounter.NeverNegative` | 1.6/Source/PerformanceOptimizer/Optimizations/CacheWithRefresh/Optimization_ForbidUtility_IsForbidden.cs:39-65 | under the same no-wrap condition, the counter is non-negative after every prefix of the sequence |
| `ToilCounter.RunAtLeastUnmatched` | 1.6/Source/PerformanceOptimizer/Optimizations/CacheWithRefresh/Optimization_ForbidUtility_IsForbidden.cs:46-65 | the reset to 0 only raises the counter: it is at least the start plus the increments minus the decrements |
| `ToilCounter.RunCountsUnmatched` | 1.6/Source/PerformanceOptimizer/Optimizations/CacheWithRefresh/Optimization_ForbidUtility_IsForbidden.cs:39-65 | when no decrement meets a counter below 1, the counter equals the start plus the unmatched increments |
| `ToilCounter.CloseAsWritten` | 1.6/Source/PerformanceOptimizer/Optimizations/CacheWithRefresh/Optimization_ForbidUtility_IsForbidden.cs:24-29 | leaving the region by an exception decrements once (finalizer only); leaving it normally decrements twice (postfix, then finalizer) |
| `ToilCounter.NestedNormalExitDisablesCaching` | 1.6/Source/PerformanceOptimizer/Optimizations/CacheWithRefresh/Optimization_ForbidUtility_IsForbidden.cs:39-65 | after two nested entries and one normal exit, the depth is 1 but the counter is 0 as written, and 1 with the corrected finalizer |
| `ToilCounter.FinalizerCorrected` | 1.6/Source/PerformanceOptimizer/Optimizations/CacheWithRefresh/Optimization_ForbidUtility_IsForbidden.cs:56-65 | the finalizer as its comment intends it: it decrements only when an exception is passed, and returns the exception unchanged |
| `ToilCounter.CloseCorrected` | 1.6/Source/PerformanceOptimizer/Optimizations/CacheWithRefresh/Optimization_ForbidUtility_IsForbidden.cs:46-65 | with the corrected finalizer, every exit path applies exactly one clamped decrement |
| `ToilCounter.CorrectedCounterIsDepth` | 1.6/Source/PerformanceOptimizer/Optimizations/CacheWithRefresh/Optimization_ForbidUtility_IsForbidden.cs:39-65 | with the corrected finalizer, over well-nested regions (depth never above `int.MaxValue`) the counter equals the nesting depth, so caching is active exactly while a region is open |
| `ToilCounter.AsWrittenCounterAtMostDepth` | 1.6/Source/PerformanceOptimizer/Optimizations/CacheWithRefresh/Optimization_ForbidUtility_IsForbidden.cs:39-65 | as written, over well-nested regions the counter stays between 0 and the nesting depth, so caching is never left on once every region has been left |
| `ToilCounter.RegionsAreHooks` | 1.6/Source/PerformanceOptimizer/Optimizations/CacheWithRefresh/Optimization_ForbidUtility_IsForbidden.cs:24-29 | leaving and entering regions as written is exactly running the hooks each event invokes (prefix; postfix then finalizer on a normal exit; finalizer alone on an exception) |
| `ForbidCache.Put` | 1.6/Source/PerformanceOptimizer/Optimizations/CacheWithRefresh/Optimization_ForbidUtility_IsForbidden.cs:80-87 | storing a cell at a pawn/thing pair makes it visible there, leaves every other pair unchanged and adds at most the pawn's key |
| `ForbidCache.GetOrCreate` | 1.6/Source/PerformanceOptimizer/Optimizations/CacheWithRefresh/Optimization_ForbidUtility_IsForbidden.cs:80-87 | lazy insert: afterwards the pair has a cell, which is the existing one if there was one and a new one otherwise; no other cell changes |
| `ForbidCache.GetOrCreateIdempotent` | 1.6/Source/PerformanceOptimizer/Optimizations/CacheWithRefresh/Optimization_ForbidUtility_IsForbidden.cs:80-87 | a second lazy insert of the same pair changes nothing and finds the same cell |
| `ForbidCache.Prefix` | 1.6/Source/PerformanceOptimizer/Optimizations/CacheWithRefresh/Optimization_ForbidUtility_IsForbidden.cs:67-95 | a null pawn or thing, or a counter of 0, runs the original with a null state and an unchanged store; otherwise the prefix returns what `SetOrRefresh` returns for the pair's cell (existing or new), and only that pair's cell can change |
| `ForbidCache.Postfix` | 1.6/Source/PerformanceOptimizer/Optimizations/CacheWithRefresh/Optimization_ForbidUtility_IsForbidden.cs:97-101 | a null state leaves `__result` and the store unchanged; otherwise `__result` is what `ProcessResult` with the configured rate gives, and only the handled cell changes |
| `ForbidCache.Clear` | 1.6/Source/PerformanceOptimizer/Optimizations/CacheWithRefresh/Optimization_ForbidUtility_IsForbidden.cs:103-106 | the store is empty afterwards and the counter is untouched |
| `ForbidCache.ClearIdempotent` | 1.6/Source/PerformanceOptimizer/Optimizations/CacheWithRefresh/Optimization_ForbidUtility_IsForbidden.cs:103-106 | clearing twice is the same as clearing once |
| `ForbidCache.ClearThenPrefixSeesNewCell` | 1.6/Source/PerformanceOptimizer/Optimizations/CacheWithRefresh/Optimization_ForbidUtility_IsForbidden.cs:80-106 | after `Clear`, an active lookup asks `SetOrRefresh` about a new cell, as on a never-populated store, and leaves a one-entry store |
| `ForbidCache.ServesCachedIff` | 1.6/Source/PerformanceOptimizer/Optimizations/CacheWithRefresh/Optimization_ForbidUtility_IsForbidden.cs:68-95 | the prefix serves the cached value if and only if both arguments are present, the counter is positive and `SetOrRefresh` reports no refresh |
| `ForbidCache.BypassedCallIsTransparent` | 1.6/Source/PerformanceOptimizer/Optimizations/CacheWithRefresh/Optimization_ForbidUtility_IsForbidden.cs:68-101 | with a null argument or an idle counter, a whole intercepted call returns exactly the real query's answer and leaves the state unchanged |
| `ForbidCache.PrefixKeepsExistingCells` | 1.6/Source/PerformanceOptimizer/Optimizations/CacheWithRefresh/Optimization_ForbidUtility_IsForbidden.cs:80-88 | if `SetOrRefresh` does not change the cell it inspects, every pre-existing cell, including one at the queried pair, is unchanged by the prefix |
| `ForbidCache.CallCachesThePair` | 1.6/Source/PerformanceOptimizer/Optimizations/CacheWithRefresh/Optimization_ForbidUtility_IsForbidden.cs:78-101 | after a full call with caching active, the pair has a cell, the counter is unchanged and other pairs' cells are as before |
| `GravEngineCache.MaxSliderValue` | 1.6/Source/PerformanceOptimizer/Optimizations/CacheWithRefresh/Optimization_GravshipUtility_GetPlayerGravEngine.cs:14-16 | the declared maximum is five times the declared default `GravEngineCache.RefreshRateByDefault` (one real second of ticks), so the default never exceeds it |
| `GravEngineCache.Prefix` | 1.6/Source/PerformanceOptimizer/Optimizations/CacheWithRefresh/Optimization_GravshipUtility_GetPlayerGravEngine.cs:37-55 | a first lookup inserts a new cell and runs the original; a hit runs the original when `SetOrRefresh` says so; otherwise the engine is served if it is null, on this map or not destroyed, else `isRefreshRequired` is set and the original runs; other maps' cells never change |
| `GravEngineCache.Postfix` | 1.6/Source/PerformanceOptimizer/Optimizations/CacheWithRefresh/Optimization_GravshipUtility_GetPlayerGravEngine.cs:57-61 | the cell always goes through `ProcessResult` with the configured rate; `__result` is what it gives, and the store keeps the processed cell |
| `GravEngineCache.Clear` | 1.6/Source/PerformanceOptimizer/Optimizations/CacheWithRefresh/Optimization_GravshipUtility_GetPlayerGravEngine.cs:63-66 | no map has a cell afterwards |
| `GravEngineCache.ClearIdempotent` | 1.6/Source/PerformanceOptimizer/Optimizations/CacheWithRefresh/Optimization_GravshipUtility_GetPlayerGravEngine.cs:63-66 | clearing twice is the same as clearing once |
| `GravEngineCache.ClearThenPrefixRunsOriginal` | 1.6/Source/PerformanceOptimizer/Optimizations/CacheWithRefresh/Optimization_GravshipUtility_GetPlayerGravEngine.cs:40-66 | after `Clear`, every lookup is a first lookup: it runs the original and stores only a new cell |
| `GravEngineCache.ServesCachedIff` | 1.6/Source/PerformanceOptimizer/Optimizations/CacheWithRefresh/Optimization_GravshipUtility_GetPlayerGravEngine.cs:38-55 | the prefix serves the cached engine if and only if the map has a cell, `SetOrRefresh` reports no refresh and the engine passes the liveness check |
| `GravEngineCache.FirstLookupIgnoresSetOrRefresh` | 1.6/Source/PerformanceOptimizer/Optimizations/CacheWithRefresh/Optimization_GravshipUtility_GetPlayerGravEngine.cs:40-44 | on a first lookup the outcome does not depend on `SetOrRefresh` at all |
| `GravEngineCache.RefreshForcedOnlyForDeadEngine` | 1.6/Source/PerformanceOptimizer/Optimizations/CacheWithRefresh/Optimization_GravshipUtility_GetPlayerGravEngine.cs:46-54 | the prefix changes the cell `SetOrRefresh` left if and only if that cell was a hit on a non-null engine held on another map and destroyed (with the flag not yet set); it then sets `isRefreshRequired` and runs the original |
| `GravEngineCache.MovedLiveEngineIsServed` | 1.6/Source/PerformanceOptimizer/Optimizations/CacheWithRefresh/Optimization_GravshipUtility_GetPlayerGravEngine.cs:49-51 | on a hit, a cached engine that is not destroyed is served even if it is now held on another map |
| `GravEngineCache.CorrectedLivenessRejectsMovedOrDestroyed` | 1.6/Source/PerformanceOptimizer/Optimizations/CacheWithRefresh/Optimization_GravshipUtility_GetPlayerGravEngine.cs:49-50 | the liveness check as its comment describes it rejects a non-null engine exactly when it is held on another map or destroyed, and never accepts an engine the written check rejects |
| `GravEngineCache.LivenessChecksDisagree` | 1.6/Source/PerformanceOptimizer/Optimizations/CacheWithRefresh/Optimization_GravshipUtility_GetPlayerGravEngine.cs:49-51 | an engine alive on another map, and one destroyed on the queried map, pass the written check but fail the described one |
| `GravEngineCache.CallCachesTheMap` | 1.6/Source/PerformanceOptimizer/Optimizations/CacheWithRefresh/Optimization_GravshipUtility_GetPlayerGravEngine.cs:38-61 | after a full call the map has a cell, and every other map's cell is unchanged |

## Left out

- Harmony patch registration is not modelled: `DoPatches`, `Patch`, `patchedMethods`, `HarmonyPriority`, and the `ModsConfig.OdysseyActive` gate. That is runtime bytecode patching and host configuration. Only one fact about it is used: a finalizer runs on every exit and a postfix only on a normal exit (`ToilCounter.RegionEvent`).
- The internals of `CachedValueTick` and `CachedObjectTick` are not part of this model. Their tick-staleness arithmetic, and the miss-then-hit round trip that depends on it, are abstract in `Cells.CellOps`.
- The RimWorld object model is reduced to ids. Pawns and things are integer ids, with `None` for `null`; a map is always a non-null integer id. An engine's `MapHeld` and `Destroyed` come from a `World` parameter. `GenTicks.TicksPerRealSecond` is a parameter of `GravEngineCache.RefreshRateByDefault`.
- The declared default of the `IsForbidden` cache (30 ticks) is not modelled; it only seeds the setting below.
- The refresh rate setting is not modelled. `refreshRateStatic` is passed to the postfixes as a parameter; the settings UI and slider that set it are out of scope.
- `Label`, `Translate()` and `OptimizationType` are left out. They are display metadata only.
- Atomicity and memory ordering of `Interlocked` and `Volatile` are not modelled. The counter and the stores are sequential state; concurrent interleavings are not covered.
- `ForbidCache.PrefixKeepsExistingCells`: proved only for cells whose `SetOrRefresh` does not change the cell, because that method's code is not part of this model. In general, `ForbidCache.Prefix` states that the queried pair holds the cell `SetOrRefresh` left, and that no other pair changes.
- `ForbidCache.Call` and `GravEngineCache.Call` model only a real query that returns normally. If the query throws, the interception layer skips the postfix, so the cell the prefix created or refreshed never goes through `ProcessResult`. That path is not modelled.
- `ForbidCache.Postfix` assumes that between a call's prefix and postfix, no other hook changes the handled cell, except that `Clear` may drop it. `GravEngineCache.Postfix` makes the same assumption.
- `ToilCounter.RunStaysNonNegative`: non-negativity is proved for sequences in which no increment meets a counter already at `int.MaxValue`. Such an increment wraps the counter to `int.MinValue` (see `ToilCounter.Prefix`); the total number of increments is not bounded.
- `GravEngineCache.Prefix`: a `null` map is not modelled. In the source, `map.uniqueID` throws `NullReferenceException` inside the prefix in that case; the model takes the map's id as a plain integer.

## Findings

| source | as written | input that shows it | evidently intended | confidence | as-written member | corrected member |
|---|---|---|---|---|---|---|
| 1.6/Source/PerformanceOptimizer/Optimizations/CacheWithRefresh/Optimization_ForbidUtility_IsForbidden.cs:46-65 | Both the postfix and the finalizer decrement. Harmony runs a finalizer on every exit, so a normal exit decrements twice. | Enter, enter, then a normal exit of the inner call: the depth is still 1, but the counter is 0 and caching is off for the rest of the outer call | One decrement per exit. The counter should count nesting ("support nested calls"), and the finalizer is only needed "on exception". | medium (relies on the interception library's finalizer semantics); not executed | `ToilCounter.NestedNormalExitDisablesCaching` | `ToilCounter.CorrectedCounterIsDepth` |
| 1.6/Source/PerformanceOptimizer/Optimizations/CacheWithRefresh/Optimization_GravshipUtility_GetPlayerGravEngine.cs:49-50 | The liveness check serves a cached engine that is null, held on the queried map, or not destroyed. A recache is forced only for a non-null engine that is held elsewhere and destroyed. | A hit on an engine that is alive but now held on another map is served; so is an engine destroyed while still held on the queried map | The comment on line 49 asks for a recache when the engine changed its map or was destroyed: serve only a null engine, or one still held on the map and not destroyed | plausible, intent read from the comment; not executed | `GravEngineCache.MovedLiveEngineIsServed` | `GravEngineCache.CorrectedLivenessRejectsMovedOrDestroyed` |
