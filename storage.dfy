/**
 * The older key-value storer (pkg/grid/storage.go): like the dictionary of keys, but
 * Set always stores, even the default, and the default survives cloning.
 */
module SparseStorage {
  import opened Wrappers
  import opened Topology
  import opened Mismatch
  import opened Keyed

  class Storage {
    const rows: nat
    const cols: nat
    var cells: map<Key, int>
    var defaultValue: int

    predicate Valid()
      reads this
    {
      KeysInRange(cells, rows, cols)
    }

    /** The cells as a matrix: the explicit keys over the default. */
    function Matrix(): (m: seq<seq<int>>)
      reads this
      ensures IsMatrix(m, rows, cols)
    {
      KeyedMatrix(cells, defaultValue, rows, cols)
    }

    /** NewStorage: the extents and the default, no explicit key. */
    constructor (rows: nat, cols: nat, defaultValue: int)
      ensures Valid() && this.rows == rows && this.cols == cols
      ensures cells == map[] && this.defaultValue == defaultValue
      ensures Matrix() == Filled(rows, cols, defaultValue)
    {
      this.rows := rows;
      this.cols := cols;
      this.defaultValue := defaultValue;
      cells := map[];
      new;
      EmptyIsFilled(defaultValue, rows, cols);
    }

    /** Get: the stored value if the key exists, else the default; bad indices panic. */
    function Get(i: int, j: int): (v: int)
      reads this
      requires 0 <= i < rows && 0 <= j < cols
      ensures v == Matrix()[i][j]
    {
      if (i, j) in cells then cells[(i, j)] else defaultValue
    }

    /** Set: the value is always stored under its key, even when it is the default. */
    method Set(i: int, j: int, v: int)
      requires Valid() && 0 <= i < rows && 0 <= j < cols
      modifies this
      ensures Valid() && defaultValue == old(defaultValue)
      ensures cells == old(cells)[(i, j) := v]
      ensures Matrix() == old(Matrix())[i := old(Matrix())[i][j := v]]
    {
      StoreUpdates(cells, defaultValue, rows, cols, i, j, v);
      cells := cells[(i, j) := v];
    }

    /** SetAll: v becomes the default and every key is dropped. */
    method SetAll(v: int)
      modifies this
      ensures Valid() && defaultValue == v && cells == map[]
      ensures Matrix() == Filled(rows, cols, v)
    {
      defaultValue := v;
      cells := map[];
      EmptyIsFilled(v, rows, cols);
    }

    /**
     * EqualsError: the extents (rows first), then the explicit keys and their values; the
     * defaults are never compared.
     */
    method EqualsError(other: Storage) returns (e: Option<EqError>)
      ensures e.None? <==> rows == other.rows && cols == other.cols && cells == other.cells
      ensures rows != other.rows || cols != other.cols ==> e == DimensionsError(rows, cols, other.rows, other.cols)
      ensures e.Some? && rows == other.rows && cols == other.cols ==>
        e.value.CellMissing? || e.value.CellsDiffer? || e.value.OnlyInArgument?
    {
      e := DimensionsError(rows, cols, other.rows, other.cols);
      if e.None? {
        e := KeyedEqualsError(cells, other.cells);
      }
    }

    /** Equals: EqualsError found nothing. */
    method Equals(other: Storage) returns (eq: bool)
      ensures eq <==> rows == other.rows && cols == other.cols && cells == other.cells
    {
      var e := EqualsError(other);
      eq := e.None?;
    }

    /** Clone: same extents, same default, every key copied. */
    method Clone() returns (c: Storage)
      requires Valid()
      ensures fresh(c) && c.Valid() && c.rows == rows && c.cols == cols
      ensures c.cells == cells && c.defaultValue == defaultValue
      ensures c.Matrix() == Matrix()
    {
      c := new Storage(rows, cols, defaultValue);
      var copy := CopyKeys(cells);
      c.cells := copy;
    }
  }

  /**
   * A value the receiver holds but the argument holds differently is reported with the
   * receiver's side printed as 0: with 3 stored in the receiver and 555 in the argument
   * at (1, 3), the walk over the receiver's keys reports CellsDiffer(1, 3, 0, 555).
   */
  method ReportedMismatch() returns (e: Option<EqError>)
    ensures e == Some(CellsDiffer(1, 3, 0, 555))
  {
    var mine, theirs := map[(1, 3) := 3], map[(1, 3) := 555];
    e := KeyedEqualsError(mine, theirs);
    assert mine[(1, 3)] != theirs[(1, 3)];
    assert (e.value.i, e.value.j) in mine;
  }
}
