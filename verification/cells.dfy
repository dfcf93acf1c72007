/**
 * The cache cells `CachedValueTick<T>` and `CachedObjectTick<T>`, kept
 * abstract: a cell is a value of a type parameter `C`, and the only things a
 * call site may do with it are the operations collected in `CellOps`.
 */
module Cells {

  /**
   * What `SetOrRefresh(ref __result)` hands back: `runOriginal` is its boolean
   * return value (true: the real query must run), `result` the value it left
   * in `__result`, and `cell` the cell as it is after the call (the C# method
   * may update the object it is called on).
   */
  datatype Refresh<C, R> = Refresh(runOriginal: bool, result: R, cell: C)

  /** What `ProcessResult(ref __result, refreshRate)` leaves behind. */
  datatype Processed<C, R> = Processed(result: R, cell: C)

  /**
   * The cell operations a call site uses: `newCell` is a newly constructed cell,
   * `setOrRefresh` the prefix-time check and `processResult` the postfix-time
   * reconciliation, parameterised by the refresh rate in ticks.
   */
  datatype CellOps<!C, !R> = CellOps(
    newCell: C,
    setOrRefresh: (C, R) -> Refresh<C, R>,
    processResult: (C, R, int) -> Processed<C, R>)


  /** `setOrRefresh` is a pure probe: it never changes the cell it inspects. */
  ghost predicate LeavesCellAlone<C(!new), R(!new)>(ops: CellOps<C, R>)
  {
    forall c: C, r: R :: ops.setOrRefresh(c, r).cell == c
  }

}
