/**
 * The dictionary-of-keys cell storer (pkg/grid/dok.go): a map from coordinates to
 * values and a default for every cell without a key. Set keeps the map sparse by
 * deleting the key when the value written is the default.
 */
module DokStorage {
  import opened Wrappers
  import opened Topology
  import opened Mismatch
  import opened Keyed

  class Dok {
    const rows: nat
    const cols: nat
    var cells: map<Key, int>
    var defaultValue: int

    predicate Valid()
      reads this
    {
      KeysInRange(cells, rows, cols)
    }

    /** The cells as a matrix: the explicit keys over the default. */
    function Matrix(): (m: seq<seq<int>>)
      reads this
      ensures IsMatrix(m, rows, cols)
    {
      KeyedMatrix(cells, defaultValue, rows, cols)
    }

    /** NewDok as written: the defaultValue argument is never stored, so the default is 0. */
    constructor (rows: nat, cols: nat, defaultValue: int)
      ensures Valid() && this.rows == rows && this.cols == cols
      ensures cells == map[] && this.defaultValue == 0
      ensures Matrix() == Filled(rows, cols, 0)
    {
      this.rows := rows;
      this.cols := cols;
      cells := map[];
      this.defaultValue := 0;
      new;
      EmptyIsFilled(0, rows, cols);
    }

    /** NewDok as evidently intended: the default is the one passed in. */
    constructor WithDefault(rows: nat, cols: nat, defaultValue: int)
      ensures Valid() && this.rows == rows && this.cols == cols
      ensures cells == map[] && this.defaultValue == defaultValue
      ensures Matrix() == Filled(rows, cols, defaultValue)
    {
      this.rows := rows;
      this.cols := cols;
      cells := map[];
      this.defaultValue := defaultValue;
      new;
      EmptyIsFilled(defaultValue, rows, cols);
    }

    /** Get: the stored value if the key exists, else the default; bad indices panic. */
    function Get(i: int, j: int): (v: int)
      reads this
      requires 0 <= i < rows && 0 <= j < cols
      ensures v == Matrix()[i][j]
    {
      if (i, j) in cells then cells[(i, j)] else defaultValue
    }

    /**
     * Set: writing the default deletes the key, any other value is stored. Either way the
     * cell reads v afterwards, and a map with no key holding the default keeps none.
     */
    method Set(i: int, j: int, v: int)
      requires Valid() && 0 <= i < rows && 0 <= j < cols
      modifies this
      ensures Valid() && defaultValue == old(defaultValue)
      ensures cells == if v == defaultValue then old(cells) - {(i, j)} else old(cells)[(i, j) := v]
      ensures Matrix() == old(Matrix())[i := old(Matrix())[i][j := v]]
      ensures (forall k | k in old(cells) :: old(cells)[k] != defaultValue) ==>
        forall k | k in cells :: cells[k] != defaultValue
    {
      if v == defaultValue {
        DeleteUpdates(cells, defaultValue, rows, cols, i, j);
        cells := cells - {(i, j)};
      } else {
        StoreUpdates(cells, defaultValue, rows, cols, i, j, v);
        cells := cells[(i, j) := v];
      }
    }

    /** SetAll: v becomes the default and every key is dropped. */
    method SetAll(v: int)
      modifies this
      ensures Valid() && defaultValue == v && cells == map[]
      ensures Matrix() == Filled(rows, cols, v)
    {
      defaultValue := v;
      cells := map[];
      EmptyIsFilled(v, rows, cols);
    }

    /**
     * EqualsError: the extents (rows first), then the explicit keys and their values; the
     * defaults are never compared.
     */
    method EqualsError(other: Dok) returns (e: Option<EqError>)
      ensures e.None? <==> rows == other.rows && cols == other.cols && cells == other.cells
      ensures rows != other.rows || cols != other.cols ==> e == DimensionsError(rows, cols, other.rows, other.cols)
      ensures e.Some? && rows == other.rows && cols == other.cols ==>
        e.value.CellMissing? || e.value.CellsDiffer? || e.value.OnlyInArgument?
    {
      e := DimensionsError(rows, cols, other.rows, other.cols);
      if e.None? {
        e := KeyedEqualsError(cells, other.cells);
      }
    }

    /**
     * Clone as written: the keys are copied, but the copy comes from NewDok, so its
     * default is 0 whatever the receiver's was.
     */
    method Clone() returns (c: Dok)
      requires Valid()
      ensures fresh(c) && c.Valid() && c.rows == rows && c.cols == cols
      ensures c.cells == cells && c.defaultValue == 0
      ensures c.Matrix() == KeyedMatrix(cells, 0, rows, cols)
    {
      c := new Dok(rows, cols, defaultValue);
      var copy := CopyKeys(cells);
      c.cells := copy;
    }

    /** Clone with the default kept, as NewDok evidently intends: an exact copy. */
    method CloneKeepingDefault() returns (c: Dok)
      requires Valid()
      ensures fresh(c) && c.Valid() && c.rows == rows && c.cols == cols
      ensures c.cells == cells && c.defaultValue == defaultValue
      ensures c.Matrix() == Matrix()
    {
      c := new Dok.WithDefault(rows, cols, defaultValue);
      var copy := CopyKeys(cells);
      c.cells := copy;
    }

    /** CloneEmpty: the same extents, no key, and (through NewDok) default 0. */
    method CloneEmpty() returns (c: Dok)
      ensures fresh(c) && c.Valid() && c.rows == rows && c.cols == cols
      ensures c.cells == map[] && c.defaultValue == 0
      ensures c.Matrix() == Filled(rows, cols, 0)
    {
      c := new Dok(rows, cols, defaultValue);
    }
  }

  /**
   * After SetAll(v) with v != 0 a dok has no key and default v; Clone as written
   * gives a copy that reads 0 everywhere, so the copy differs from the original.
   */
  lemma CloneLosesFill(rows: nat, cols: nat, v: int)
    requires rows > 0 && cols > 0 && v != 0
    ensures KeyedMatrix(map[], 0, rows, cols) != KeyedMatrix(map[], v, rows, cols)
  {
    assert KeyedMatrix(map[], v, rows, cols)[0][0] == v;
  }
}
