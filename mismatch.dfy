/**
 * The errors returned by the equality checks of storers, grids and automata.
 * Each constructor stands for one message format of the Go code; the values it
 * carries are the ones the message prints.
 */
module Mismatch {
  import opened Wrappers

  datatype EqError =
    | RowsDiffer(mine: int, theirs: int)
    | ColsDiffer(mine: int, theirs: int)
      /** "Cells at (i,j) are different: mine vs theirs" */
    | CellsDiffer(i: int, j: int, mine: int, theirs: int)
      /** "Cells at (i,j) are different: mine vs NOVALUE" */
    | CellMissing(i: int, j: int, mine: int)
      /** "(i,j) = v exists only in the ... argument but not in the receiver" */
    | OnlyInArgument(i: int, j: int, theirs: int)
    | RowLimitsDiffer(mineLimit: string, theirLimit: string)
    | ColLimitsDiffer(mineLimit: string, theirLimit: string)
    | NamesDiffer(mineText: string, theirText: string)
    | DescriptionsDiffer(mineText: string, theirText: string)
    | RulesDiffer(mineText: string, theirText: string)
    | GenerationsDiffer(mine: int, theirs: int)
    | NeighborhoodsDiffer(mineText: string, theirText: string)
    | ProcessesDiffer(mine: int, theirs: int)

  /** An error a storer's comparison returns (as opposed to the grid's or the automaton's). */
  predicate IsCellsError(e: EqError) {
    e.RowsDiffer? || e.ColsDiffer? || e.CellsDiffer? || e.CellMissing? || e.OnlyInArgument?
  }

  /**
   * equalDimensionsError: the row counts are compared before the column counts, and
   * the first difference is the error.
   */
  function DimensionsError(rows: int, cols: int, otherRows: int, otherCols: int): (e: Option<EqError>)
    ensures e.None? <==> rows == otherRows && cols == otherCols
    ensures e.Some? ==> e.value.RowsDiffer? || e.value.ColsDiffer?
    ensures e.Some? && e.value.RowsDiffer? ==> e.value == RowsDiffer(rows, otherRows) && rows != otherRows
    ensures e.Some? && e.value.ColsDiffer? ==> e.value == ColsDiffer(cols, otherCols) && rows == otherRows
  {
    if rows != otherRows then Some(RowsDiffer(rows, otherRows))
    else if cols != otherCols then Some(ColsDiffer(cols, otherCols))
    else None
  }
}
