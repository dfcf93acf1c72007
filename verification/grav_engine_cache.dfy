/**
 * The call-site cache in front of `GravshipUtility.GetPlayerGravEngine(Map map)`:
 * a store `mapId -> cell` over object cells, plus a liveness check that forces
 * a refresh when a cached engine was destroyed away from the queried map.
 */
module GravEngineCache {

  import opened Options
  import opened Cells

  /**
   * A `CachedObjectTick<Building_GravEngine>`: its tick bookkeeping `tick` is
   * abstract; only the public `isRefreshRequired` flag is visible here.
   */
  datatype ObjectCell<S> = ObjectCell(tick: S, isRefreshRequired: bool)

  /** `cachedResults`: map id to cell. */
  type Store<S> = map<int, ObjectCell<S>>

  /** A grav engine is identified by its thing id; `None` is a `null` engine. */
  type Engine = Option<int>

  /**
   * What the game says about an engine when the prefix runs: the id of the map
   * it is held on (`MapHeld`, `None` when it is on no map) and `Destroyed`.
   */
  datatype World = World(mapHeld: int -> Option<int>, destroyed: int -> bool)

  /** `__state` as handed to the postfix: the cell and the map id it is stored under. */
  datatype Handle<S> = Handle(mapId: int, cell: ObjectCell<S>)

  datatype PrefixOutcome<S> = PrefixOutcome(runOriginal: bool, handle: Handle<S>, result: Engine, store: Store<S>)

  datatype PostfixOutcome<S> = PostfixOutcome(result: Engine, store: Store<S>)

  /** Declared default refresh rate: `GenTicks.TicksPerRealSecond`. */
  function RefreshRateByDefault(ticksPerRealSecond: nat): nat
  {
    ticksPerRealSecond
  }

  /** Declared slider maximum: five real seconds of ticks, never below the default. */
  function MaxSliderValue(ticksPerRealSecond: nat): (m: nat)
    ensures RefreshRateByDefault(ticksPerRealSecond) <= m
    ensures m == 5 * RefreshRateByDefault(ticksPerRealSecond)
  {
    ticksPerRealSecond * 5
  }

  /**
   * The liveness check after a hit: the cached engine may be served when it is
   * `null`, held on the queried map, or not destroyed.
   */
  predicate MayServe(world: World, mapId: int, cached: Engine)
  {
    cached.None? || world.mapHeld(cached.value) == Some(mapId) || !world.destroyed(cached.value)
  }

  /** `Prefix(map, out __state, ref __result)` for the map with id `mapId`. */
  function Prefix<S>(ops: CellOps<ObjectCell<S>, Engine>, world: World, store: Store<S>, mapId: int, result: Engine)
    : (o: PrefixOutcome<S>)
    ensures o.handle.mapId == mapId
    ensures mapId in o.store && o.store[mapId] == o.handle.cell
    ensures o.store.Keys == store.Keys + {mapId}
    ensures forall m :: m in store && m != mapId ==> o.store[m] == store[m]
    // first lookup: insert a new cell and run the query
    ensures mapId !in store ==>
              o.runOriginal && o.handle.cell == ops.newCell && o.result == result
    // later lookups: SetOrRefresh decides, then the liveness check may overrule a hit
    ensures mapId in store ==>
              var r := ops.setOrRefresh(store[mapId], result);
              && o.result == r.result
              && (r.runOriginal ==> o.runOriginal && o.handle.cell == r.cell)
              && (!r.runOriginal && MayServe(world, mapId, r.result) ==>
                    !o.runOriginal && o.handle.cell == r.cell)
              && (!r.runOriginal && !MayServe(world, mapId, r.result) ==>
                    o.runOriginal && o.handle.cell == r.cell.(isRefreshRequired := true))
  {
    if mapId !in store then
      PrefixOutcome(true, Handle(mapId, ops.newCell), result, store[mapId := ops.newCell])
    else
      var r := ops.setOrRefresh(store[mapId], result);
      if r.runOriginal then
        PrefixOutcome(true, Handle(mapId, r.cell), r.result, store[mapId := r.cell])
      else if MayServe(world, mapId, r.result) then
        PrefixOutcome(false, Handle(mapId, r.cell), r.result, store[mapId := r.cell])
      else
        var forced := r.cell.(isRefreshRequired := true);
        PrefixOutcome(true, Handle(mapId, forced), r.result, store[mapId := forced])
  }

  /**
   * `Postfix(__state, ref __result)`: the cell always goes through
   * `ProcessResult` with the configured rate, and the store keeps the processed
   * cell unless it was cleared in the meantime.
   */
  function Postfix<S>(ops: CellOps<ObjectCell<S>, Engine>, store: Store<S>, handle: Handle<S>, result: Engine, rate: int)
    : (o: PostfixOutcome<S>)
    ensures var p := ops.processResult(handle.cell, result, rate);
            && o.result == p.result
            && (handle.mapId in store ==> o.store == store[handle.mapId := p.cell])
            && (handle.mapId !in store ==> o.store == store)
  {
    var p := ops.processResult(handle.cell, result, rate);
    PostfixOutcome(p.result, if handle.mapId in store then store[handle.mapId := p.cell] else store)
  }

  /** `Clear()`: drops every cached cell. */
  function Clear<S>(store: Store<S>): (r: Store<S>)
    ensures forall m :: m !in r
  {
    map[]
  }

  /**
   * One intercepted call of `GetPlayerGravEngine`: the prefix, then the real
   * query (whose answer is `original`) when the prefix asks for it, then the
   * postfix.
   */
  function Call<S>(ops: CellOps<ObjectCell<S>, Engine>, world: World, store: Store<S>, mapId: int,
                   incoming: Engine, original: Engine, rate: int): PostfixOutcome<S>
  {
    var o := Prefix(ops, world, store, mapId, incoming);
    Postfix(ops, o.store, o.handle, if o.runOriginal then original else o.result, rate)
  }

  // ---------------------------------------------------------------------
  // Properties
  // ---------------------------------------------------------------------

  /**
   * The prefix's decision table: it serves the cached engine exactly when the
   * map already has a cell, `SetOrRefresh` reports no refresh, and the engine it
   * returns passes the liveness check.
   */
  lemma ServesCachedIff<S>(ops: CellOps<ObjectCell<S>, Engine>, world: World, store: Store<S>, mapId: int, result: Engine)
    ensures !Prefix(ops, world, store, mapId, result).runOriginal <==>
              && mapId in store
              && !ops.setOrRefresh(store[mapId], result).runOriginal
              && MayServe(world, mapId, ops.setOrRefresh(store[mapId], result).result)
  {
  }

  /**
   * On the first lookup for a map, `SetOrRefresh` is not consulted: two cell
   * implementations that differ only there give the same outcome.
   */
  lemma FirstLookupIgnoresSetOrRefresh<S>(ops1: CellOps<ObjectCell<S>, Engine>, ops2: CellOps<ObjectCell<S>, Engine>,
                                          world: World, store: Store<S>, mapId: int, result: Engine)
    requires mapId !in store
    requires ops1.newCell == ops2.newCell
    ensures Prefix(ops1, world, store, mapId, result) == Prefix(ops2, world, store, mapId, result)
  {
  }

  /**
   * The prefix raises `isRefreshRequired` on a cell only after a hit on a
   * non-null engine that is held on another map and destroyed; in every other
   * case the flag is as `SetOrRefresh` left it.
   */
  lemma RefreshForcedOnlyForDeadEngine<S>(ops: CellOps<ObjectCell<S>, Engine>, world: World, store: Store<S>,
                                          mapId: int, result: Engine)
    requires mapId in store
    ensures var r := ops.setOrRefresh(store[mapId], result);
            var o := Prefix(ops, world, store, mapId, result);
            && (o.handle.cell != r.cell <==>
                  && !r.runOriginal
                  && r.result.Some?
                  && world.mapHeld(r.result.value) != Some(mapId)
                  && world.destroyed(r.result.value)
                  && !r.cell.isRefreshRequired)
            && (o.handle.cell != r.cell ==> o.runOriginal && o.handle.cell.isRefreshRequired)
  {
  }

  /**
   * An engine that moved to another map but is not destroyed is still served
   * from the cache on a hit: the liveness check only rejects destroyed engines
   * held elsewhere.
   */
  lemma MovedLiveEngineIsServed<S>(ops: CellOps<ObjectCell<S>, Engine>, world: World, store: Store<S>,
                                   mapId: int, result: Engine)
    requires mapId in store
    requires !ops.setOrRefresh(store[mapId], result).runOriginal
    requires ops.setOrRefresh(store[mapId], result).result.Some?
    requires !world.destroyed(ops.setOrRefresh(store[mapId], result).result.value)
    ensures !Prefix(ops, world, store, mapId, result).runOriginal
  {
  }

  /**
   * The liveness check as its comment describes it ("didn't change its
   * map/was destroyed"): a non-null engine may be served only when it is still
   * held on the queried map and not destroyed.
   */
  predicate MayServeCorrected(world: World, mapId: int, cached: Engine)
  {
    cached.None? || (world.mapHeld(cached.value) == Some(mapId) && !world.destroyed(cached.value))
  }

  /**
   * The corrected check rejects exactly the engines that moved away or were
   * destroyed, and it only ever rejects more than the check as written.
   */
  lemma CorrectedLivenessRejectsMovedOrDestroyed(world: World, mapId: int, engine: int)
    ensures !MayServeCorrected(world, mapId, Some(engine)) <==>
              world.mapHeld(engine) != Some(mapId) || world.destroyed(engine)
    ensures MayServeCorrected(world, mapId, Some(engine)) ==> MayServe(world, mapId, Some(engine))
  {
  }

  /**
   * The two checks disagree: an engine that is alive but now held on another
   * map, and one destroyed while still held on the queried map, both pass the
   * check as written and fail the corrected one.
   */
  lemma LivenessChecksDisagree()
    ensures var moved := World(e => Some(2), e => false);
            MayServe(moved, 1, Some(7)) && !MayServeCorrected(moved, 1, Some(7))
    ensures var wrecked := World(e => Some(1), e => true);
            MayServe(wrecked, 1, Some(7)) && !MayServeCorrected(wrecked, 1, Some(7))
  {
  }

  /** After a full call, the map has a cell and every other map's cell is unchanged. */
  lemma CallCachesTheMap<S>(ops: CellOps<ObjectCell<S>, Engine>, world: World, store: Store<S>, mapId: int,
                            incoming: Engine, original: Engine, rate: int)
    ensures var o := Call(ops, world, store, mapId, incoming, original, rate);
            && o.store.Keys == store.Keys + {mapId}
            && forall m :: m in store && m != mapId ==> o.store[m] == store[m]
  {
  }

  /** `Clear` is idempotent. */
  lemma ClearIdempotent<S>(store: Store<S>)
    ensures Clear(Clear(store)) == Clear(store)
  {
  }

  /** After `Clear`, every lookup is a first lookup and runs the real query. */
  lemma ClearThenPrefixRunsOriginal<S>(ops: CellOps<ObjectCell<S>, Engine>, world: World, store: Store<S>,
                                       mapId: int, result: Engine)
    ensures var o := Prefix(ops, world, Clear(store), mapId, result);
            o.runOriginal && o.handle.cell == ops.newCell && o.store == map[mapId := ops.newCell]
  {
  }

}
