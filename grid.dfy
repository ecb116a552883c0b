/**
 * The grid (pkg/grid/grid.go): a cell storer together with one limit flag per axis.
 * Reads off a limited axis give VOID; an unlimited axis wraps its indices, which is
 * what the closures SetLimitRows and SetLimitCols install compute (Topology.Normalize).
 */
module Grids {
  import opened Wrappers
  import opened Statuses
  import opened Topology
  import opened Mismatch
  import opened CellsStorer

  class Grid {
    const cells: Storer
    var limitRows: bool
    var limitCols: bool

    /** The grid and the objects holding its cells. */
    function Repr(): set<object>
      reads this
    {
      {this} + cells.Footprint()
    }

    predicate Valid()
      reads this, cells.Footprint()
    {
      cells.Valid()
    }

    /** The grid's contents with its topology. */
    function View(): (b: Board)
      reads this, cells.Footprint()
      requires Valid()
      ensures b.Valid()
    {
      Board(cells.Rows(), cells.Cols(), limitRows, limitCols, cells.Matrix())
    }

    /**
     * The grid a Clone gives: the same extents and limits over the cells the storer's
     * Clone holds. It is View itself unless the storer is a dok whose default is not 0.
     */
    function ClonedView(): (b: Board)
      reads this, cells.Footprint()
      requires Valid()
      ensures b.Valid() && b.rows == View().rows && b.cols == View().cols
      ensures b.limitRows == limitRows && b.limitCols == limitCols
      ensures cells.ClonesExactly() ==> b == View()
    {
      Board(cells.Rows(), cells.Cols(), limitRows, limitCols, cells.ClonedMatrix())
    }

    /**
     * newGridFromCellsStorer: the grid stores a clone of the storer it is given, never
     * the storer itself, and a limitation string sets its axis' flag exactly when it is
     * "limited". The cells are those of the clone: a dok source's default becomes 0.
     */
    constructor (rowLimitation: string, colLimitation: string, source: Storer)
      requires source.Valid()
      ensures Valid() && fresh(cells.Footprint()) && cells.Mirrors(source) && cells.ClonesExactly()
      ensures View() == Board(source.Rows(), source.Cols(), rowLimitation == "limited", colLimitation == "limited", source.ClonedMatrix())
    {
      var copy := source.Clone();
      cells := copy;
      new;
      SetLimitRows(rowLimitation == "limited");
      SetLimitCols(colLimitation == "limited");
    }

    /** SetLimitRows: sets the flag the row normalisation and the VOID test depend on. */
    method SetLimitRows(limited: bool)
      modifies this
      ensures limitRows == limited && limitCols == old(limitCols)
    {
      limitRows := limited;
    }

    /** SetLimitCols: sets the flag the column normalisation and the VOID test depend on. */
    method SetLimitCols(limited: bool)
      modifies this
      ensures limitCols == limited && limitRows == old(limitRows)
    {
      limitCols := limited;
    }

    /** LimitRowsString: "limited" exactly when the rows are limited, else "unlimited". */
    function LimitRowsString(): (s: string)
      reads this
      ensures s == "limited" <==> limitRows
      ensures s == "limited" || s == "unlimited"
    {
      LimitString(limitRows)
    }

    /** LimitColsString: "limited" exactly when the columns are limited, else "unlimited". */
    function LimitColsString(): (s: string)
      reads this
      ensures s == "limited" <==> limitCols
      ensures s == "limited" || s == "unlimited"
    {
      LimitString(limitCols)
    }

    /**
     * Get: VOID when an index falls off a limited axis, otherwise the stored cell at the
     * normalised indices. On an unlimited axis of extent 0 the wrap divides by zero,
     * which the precondition excludes.
     */
    function Get(i: int, j: int): (v: int)
      reads this, cells.Footprint()
      requires Valid() && View().CanRead(i, j)
      ensures v == View().Get(i, j)
      ensures (IsOut(limitRows, i, cells.Rows()) || IsOut(limitCols, j, cells.Cols())) ==> v == VOID
      ensures View().InRange(i, j) ==> v == cells.Matrix()[i][j]
    {
      GetSemantics(View(), i, j);
      if IsOut(limitRows, i, cells.Rows()) || IsOut(limitCols, j, cells.Cols()) then VOID
      else
        WrapInRange(i, cells.Rows());
        WrapInRange(j, cells.Cols());
        cells.Get(Normalize(limitRows, i, cells.Rows()), Normalize(limitCols, j, cells.Cols()))
    }

    /**
     * Set: the indices are normalised as for Get and passed to the storer, whose index
     * check panics on an index off a limited axis. A dok keeps its default and drops or
     * stores the normalised key, so a clone reads 0 there when v is the default.
     */
    method Set(i: int, j: int, v: int)
      requires Valid() && View().CanWrite(i, j)
      modifies cells.Footprint()
      ensures Valid() && View() == old(View()).Set(i, j, v)
      ensures cells.DokStorer? ==> cells.dok.defaultValue == old(cells.dok.defaultValue)
      ensures cells.DokStorer? ==>
        var key := (Normalize(limitRows, i, cells.Rows()), Normalize(limitCols, j, cells.Cols()));
        cells.dok.cells == if v == cells.dok.defaultValue then old(cells.dok.cells) - {key} else old(cells.dok.cells)[key := v]
      ensures cells.ClonesExactly() == old(cells.ClonesExactly())
      ensures ClonedView() == old(ClonedView()).Set(i, j, if cells.DokStorer? && v == cells.dok.defaultValue then 0 else v)
    {
      WrapInRange(i, cells.Rows());
      WrapInRange(j, cells.Cols());
      cells.Set(Normalize(limitRows, i, cells.Rows()), Normalize(limitCols, j, cells.Cols()), v);
    }

    /** SetAll: every cell takes the value; a dok's clone then reads 0 everywhere. */
    method SetAll(v: int)
      requires Valid()
      modifies cells.Footprint()
      ensures Valid() && View() == old(View()).Fill(v)
      ensures cells.DokStorer? ==> cells.dok.defaultValue == v && cells.dok.cells == map[]
      ensures ClonedView() == old(View()).Fill(if cells.DokStorer? then 0 else v)
    {
      cells.SetAll(v);
    }

    /** Equals: EqualsError found nothing. */
    method Equals(other: Grid, mode: string) returns (eq: bool)
      requires Valid() && other.Valid() && Comparable(cells, other.cells, mode == "values")
      ensures eq <==> SameAs(other, mode)
    {
      var e := EqualsError(other, mode);
      eq := e.None?;
    }

    /** What EqualsError accepts: equal cells in the given mode, then equal limits. */
    predicate SameAs(other: Grid, mode: string)
      reads this, cells.Footprint(), other, other.cells.Footprint()
      requires Valid() && other.Valid()
    {
      CellsEqual(cells, other.cells, mode == "values") &&
      limitRows == other.limitRows && limitCols == other.limitCols
    }

    /**
     * EqualsError: first the cells ("values" compares cell by cell, any other mode uses
     * the storer's own EqualsError), then the row limits, then the column limits.
     */
    method EqualsError(other: Grid, mode: string) returns (e: Option<EqError>)
      requires Valid() && other.Valid() && Comparable(cells, other.cells, mode == "values")
      ensures e.None? <==> SameAs(other, mode)
      ensures CellsEqual(cells, other.cells, mode == "values") && limitRows != other.limitRows ==>
        e == Some(RowLimitsDiffer(LimitRowsString(), other.LimitRowsString()))
      ensures CellsEqual(cells, other.cells, mode == "values") && limitRows == other.limitRows && limitCols != other.limitCols ==>
        e == Some(ColLimitsDiffer(LimitColsString(), other.LimitColsString()))
      ensures !CellsEqual(cells, other.cells, mode == "values") ==> e.Some? && IsCellsError(e.value)
      ensures cells.Rows() != other.cells.Rows() || cells.Cols() != other.cells.Cols() ==>
        e == DimensionsError(cells.Rows(), cells.Cols(), other.cells.Rows(), other.cells.Cols())
      ensures e.Some? && !CellsEqual(cells, other.cells, mode == "values") && (mode == "values" || cells.DenseStorer?) &&
              cells.Rows() == other.cells.Rows() && cells.Cols() == other.cells.Cols() ==>
        FirstDifference(cells.Matrix(), other.cells.Matrix(), cells.Rows(), cells.Cols(), e.value)
    {
      if mode == "values" {
        e := CellsStorer.EqualValuesError(cells, other.cells);
      } else {
        e := CellsStorer.EqualsError(cells, other.cells);
      }
      if e.Some? {
        return;
      }
      if limitRows != other.limitRows {
        return Some(RowLimitsDiffer(LimitRowsString(), other.LimitRowsString()));
      }
      if limitCols != other.limitCols {
        return Some(ColLimitsDiffer(LimitColsString(), other.LimitColsString()));
      }
    }

    /**
     * Clone: an independent grid with the same limits over a clone of the cells. The
     * storer is cloned twice (here and in newGridFromCellsStorer); the second clone
     * changes nothing.
     */
    method Clone() returns (g: Grid)
      requires Valid()
      ensures fresh(g) && fresh(g.cells.Footprint()) && g.Valid()
      ensures g.View() == ClonedView() && g.cells.Mirrors(cells) && g.cells.ClonesExactly()
    {
      var copy := cells.Clone();
      g := new Grid(LimitRowsString(), LimitColsString(), copy);
    }

    /** CloneEmpty: an independent grid with the same limits and extents, every cell DEAD. */
    method CloneEmpty() returns (g: Grid)
      requires Valid()
      ensures fresh(g) && fresh(g.cells.Footprint()) && g.Valid()
      ensures g.View() == View().Fill(DEAD)
    {
      var copy := cells.CloneEmpty();
      g := new Grid(LimitRowsString(), LimitColsString(), copy);
    }
  }

  /** NewGrid: a grid over a fresh all-DEAD storer of the named kind. */
  method NewGrid(rows: nat, cols: nat, rowLimitation: string, colLimitation: string, cellsStorerType: string)
    returns (r: Result<Grid, FactoryError>)
    ensures r.Success? <==> ToLower(cellsStorerType) == "dense" || ToLower(cellsStorerType) == "dok"
    ensures r.Failure? ==> r.error == InvalidGridType(cellsStorerType)
    ensures r.Success? ==> fresh(r.value) && fresh(r.value.cells.Footprint()) && r.value.Valid()
    ensures r.Success? ==>
      r.value.View() == Board(rows, cols, rowLimitation == "limited", colLimitation == "limited", Filled(rows, cols, DEAD))
  {
    var cs := Factory(rows, cols, cellsStorerType);
    if cs.Failure? {
      return Failure(cs.error);
    }
    var g := new Grid(rowLimitation, colLimitation, cs.value);
    return Success(g);
  }
}
