/**
 * The call-site cache in front of `ForbidUtility.IsForbidden(Thing t, Pawn pawn)`:
 * a two-level store `pawnId -> (thingId -> cell)` that is consulted only while
 * the reentrancy counter of `ToilCounter` is positive.
 */
module ForbidCache {

  import opened Int32Arith
  import opened Options
  import opened Cells
  import ToilCounter

  /** `cachedResults`: pawn id to (thing id to cell). */
  type Store<C> = map<int, map<int, C>>

  /** The static state of the call site: the counter and the store. */
  datatype State<C> = State(counter: Int32, store: Store<C>)

  /** `__state` as the prefix hands it to the postfix: the cell and where it lives. */
  datatype Handle<C> = Handle(pawnId: int, thingId: int, cell: C)

  datatype PrefixOutcome<C> = PrefixOutcome(
    runOriginal: bool,
    handle: Option<Handle<C>>,
    result: bool,
    state: State<C>)

  datatype PostfixOutcome<C> = PostfixOutcome(result: bool, state: State<C>)

  /** The cell stored for `(pawnId, thingId)`, if any. */
  function Get<C>(store: Store<C>, pawnId: int, thingId: int): Option<C>
  {
    if pawnId in store && thingId in store[pawnId] then Some(store[pawnId][thingId]) else None
  }

  /** The cell `SetOrRefresh` is called on: the stored one, or a new one. */
  function CellFor<C>(ops: CellOps<C, bool>, store: Store<C>, pawnId: int, thingId: int): C
  {
    match Get(store, pawnId, thingId)
    case Some(c) => c
    case None => ops.newCell
  }

  /** Stores `cell` at `(pawnId, thingId)`, creating the inner map if needed. */
  function Put<C>(store: Store<C>, pawnId: int, thingId: int, cell: C): (r: Store<C>)
    ensures Get(r, pawnId, thingId) == Some(cell)
    ensures forall p, t :: (p, t) != (pawnId, thingId) ==> Get(r, p, t) == Get(store, p, t)
    ensures r.Keys == store.Keys + {pawnId}
  {
    var inner := if pawnId in store then store[pawnId] else map[];
    store[pawnId := inner[thingId := cell]]
  }

  /**
   * The two `TryGetValue`-or-insert steps of the prefix: the store afterwards
   * and the cell found or created at `(pawnId, thingId)`.
   */
  function GetOrCreate<C>(store: Store<C>, pawnId: int, thingId: int, newCell: C): (r: (Store<C>, C))
    ensures Get(r.0, pawnId, thingId) == Some(r.1)
    ensures Get(store, pawnId, thingId).Some? ==> r.1 == Get(store, pawnId, thingId).value
    ensures Get(store, pawnId, thingId).None? ==> r.1 == newCell
    ensures forall p, t :: Get(store, p, t).Some? ==> Get(r.0, p, t) == Get(store, p, t)
    ensures forall p, t :: (p, t) != (pawnId, thingId) ==> Get(r.0, p, t) == Get(store, p, t)
    ensures r.0.Keys == store.Keys + {pawnId}
  {
    var store1 := if pawnId in store then store else store[pawnId := map[]];
    var inner := store1[pawnId];
    if thingId in inner then (store1, inner[thingId])
    else (store1[pawnId := inner[thingId := newCell]], newCell)
  }

  /**
   * `Prefix(t, pawn, out __state, ref __result)`. `pawn` and `thing` are the
   * ids of the arguments, `None` when the argument is `null`; `result` is the
   * incoming `__result`.
   */
  function Prefix<C>(ops: CellOps<C, bool>, s: State<C>, pawn: Option<int>, thing: Option<int>, result: bool)
    : (o: PrefixOutcome<C>)
    ensures o.state.counter == s.counter
    // a null argument or an idle counter bypasses the cache entirely
    ensures pawn.None? || thing.None? || !ToilCounter.CachingActive(s.counter) ==>
              o.runOriginal && o.handle.None? && o.result == result && o.state == s
    // otherwise the cell at (pawn, thing) decides, and only that cell can change
    ensures pawn.Some? && thing.Some? && ToilCounter.CachingActive(s.counter) ==>
              var r := ops.setOrRefresh(CellFor(ops, s.store, pawn.value, thing.value), result);
              && o.runOriginal == r.runOriginal
              && o.result == r.result
              && o.handle == Some(Handle(pawn.value, thing.value, r.cell))
              && Get(o.state.store, pawn.value, thing.value) == Some(r.cell)
              && (forall p, t :: (p, t) != (pawn.value, thing.value) ==>
                    Get(o.state.store, p, t) == Get(s.store, p, t))
              && o.state.store.Keys == s.store.Keys + {pawn.value}
  {
    if pawn.None? || thing.None? then
      PrefixOutcome(true, None, result, s)
    else if s.counter > 0 then
      var (store1, cell) := GetOrCreate(s.store, pawn.value, thing.value, ops.newCell);
      var r := ops.setOrRefresh(cell, result);
      PrefixOutcome(r.runOriginal, Some(Handle(pawn.value, thing.value, r.cell)), r.result,
                    s.(store := Put(store1, pawn.value, thing.value, r.cell)))
    else
      PrefixOutcome(true, None, result, s)
  }

  /**
   * `Postfix(__state, ref __result)` with `refreshRateStatic` passed as `rate`:
   * `__state?.ProcessResult(ref __result, rate)`. The processed cell is the one
   * the store refers to, unless the store was cleared in the meantime.
   */
  function Postfix<C>(ops: CellOps<C, bool>, s: State<C>, handle: Option<Handle<C>>, result: bool, rate: int)
    : (o: PostfixOutcome<C>)
    ensures o.state.counter == s.counter
    ensures handle.None? ==> o.result == result && o.state == s
    ensures handle.Some? ==>
              var h := handle.value;
              var p := ops.processResult(h.cell, result, rate);
              && o.result == p.result
              && Get(o.state.store, h.pawnId, h.thingId) ==
                   (if Get(s.store, h.pawnId, h.thingId).Some? then Some(p.cell) else None)
              && (forall q, t :: (q, t) != (h.pawnId, h.thingId) ==>
                    Get(o.state.store, q, t) == Get(s.store, q, t))
  {
    match handle
    case None => PostfixOutcome(result, s)
    case Some(h) =>
      var p := ops.processResult(h.cell, result, rate);
      if Get(s.store, h.pawnId, h.thingId).Some? then
        PostfixOutcome(p.result, s.(store := Put(s.store, h.pawnId, h.thingId, p.cell)))
      else
        PostfixOutcome(p.result, s)
  }

  /** `Clear()`: drops every cached cell; the counter is not touched. */
  function Clear<C>(s: State<C>): (r: State<C>)
    ensures r.counter == s.counter
    ensures forall p, t :: Get(r.store, p, t).None?
    ensures r.store == map[]
  {
    s.(store := map[])
  }

  /**
   * One intercepted call of `IsForbidden`: the prefix, then the real query
   * (whose answer is `original`) when the prefix asks for it, then the postfix.
   */
  function Call<C>(ops: CellOps<C, bool>, s: State<C>, pawn: Option<int>, thing: Option<int>,
                   incoming: bool, original: bool, rate: int): PostfixOutcome<C>
  {
    var o := Prefix(ops, s, pawn, thing, incoming);
    Postfix(ops, o.state, o.handle, if o.runOriginal then original else o.result, rate)
  }

  // ---------------------------------------------------------------------
  // Properties
  // ---------------------------------------------------------------------

  /**
   * The prefix's decision table: it serves the cached value (returns false)
   * exactly when both arguments are present, the counter is positive and
   * `SetOrRefresh` on the cell for the pair says no refresh is needed.
   */
  lemma ServesCachedIff<C>(ops: CellOps<C, bool>, s: State<C>, pawn: Option<int>, thing: Option<int>, result: bool)
    ensures !Prefix(ops, s, pawn, thing, result).runOriginal <==>
              && pawn.Some? && thing.Some? && s.counter > 0
              && !ops.setOrRefresh(CellFor(ops, s.store, pawn.value, thing.value), result).runOriginal
  {
  }

  /**
   * When caching is bypassed the whole call is transparent: the caller gets
   * exactly the real query's answer and the state does not change.
   */
  lemma BypassedCallIsTransparent<C>(ops: CellOps<C, bool>, s: State<C>, pawn: Option<int>, thing: Option<int>,
                                     incoming: bool, original: bool, rate: int)
    requires pawn.None? || thing.None? || s.counter <= 0
    ensures Call(ops, s, pawn, thing, incoming, original, rate) == PostfixOutcome(original, s)
  {
  }

  /**
   * If `SetOrRefresh` never changes the cell it inspects, the prefix leaves
   * every pre-existing cell as it was, including one already at the queried key,
   * and only adds a new cell when the key was missing.
   */
  lemma PrefixKeepsExistingCells<C(!new)>(ops: CellOps<C, bool>, s: State<C>, pawn: Option<int>, thing: Option<int>, result: bool)
    requires LeavesCellAlone(ops)
    ensures var o := Prefix(ops, s, pawn, thing, result);
            forall p, t :: Get(s.store, p, t).Some? ==> Get(o.state.store, p, t) == Get(s.store, p, t)
  {
  }

  /**
   * After a full call with caching active, the pair has a cell in the store,
   * and every cell for other pairs is as before.
   */
  lemma CallCachesThePair<C>(ops: CellOps<C, bool>, s: State<C>, p: int, t: int,
                             incoming: bool, original: bool, rate: int)
    requires s.counter > 0
    ensures var o := Call(ops, s, Some(p), Some(t), incoming, original, rate);
            && Get(o.state.store, p, t).Some?
            && o.state.counter == s.counter
            && forall q, u :: (q, u) != (p, t) ==> Get(o.state.store, q, u) == Get(s.store, q, u)
  {
  }

  /** `Clear` is idempotent. */
  lemma ClearIdempotent<C>(s: State<C>)
    ensures Clear(Clear(s)) == Clear(s)
  {
  }

  /**
   * After `Clear`, an active lookup behaves as on a never-populated store:
   * `SetOrRefresh` is asked about a new cell.
   */
  lemma ClearThenPrefixSeesNewCell<C>(ops: CellOps<C, bool>, s: State<C>, p: int, t: int, result: bool)
    requires s.counter > 0
    ensures var o := Prefix(ops, Clear(s), Some(p), Some(t), result);
            var r := ops.setOrRefresh(ops.newCell, result);
            && o.runOriginal == r.runOriginal
            && o.result == r.result
            && o.state.store == map[p := map[t := r.cell]]
  {
    var (store1, cell) := GetOrCreate(Clear(s).store, p, t, ops.newCell);
    assert store1 == map[p := map[t := ops.newCell]];
    var r := ops.setOrRefresh(ops.newCell, result);
    assert store1[p][t := r.cell] == map[t := r.cell];
    assert Put(store1, p, t, r.cell) == map[p := map[t := r.cell]];
  }

  /** Inserting a pair that is already present changes nothing. */
  lemma GetOrCreateIdempotent<C>(store: Store<C>, p: int, t: int, newCell: C)
    ensures var (s1, c1) := GetOrCreate(store, p, t, newCell);
            GetOrCreate(s1, p, t, newCell) == (s1, c1)
  {
  }

}
