/**
 * The CellsStorer interface (pkg/grid/cellsstorer.go) over its two implementations,
 * the factory that picks one by name, and the equality checks that the interface's
 * methods dispatch to (pkg/grid/dense.go, pkg/grid/dok.go).
 */
module CellsStorer {
  import opened Wrappers
  import opened Statuses
  import opened Topology
  import opened Mismatch
  import opened Keyed
  import opened DenseStorage
  import opened DokStorage

  /** A CellsStorer value: a dense storer or a dictionary of keys. */
  datatype Storer = DenseStorer(dense: Dense) | DokStorer(dok: Dok)
  {
    /** The objects whose state is the storer's cells. */
    function Footprint(): set<object> {
      match this
      case DenseStorer(d) => {d.cells}
      case DokStorer(k) => {k}
    }

    function Rows(): nat {
      match this
      case DenseStorer(d) => d.rows
      case DokStorer(k) => k.rows
    }

    function Cols(): nat {
      match this
      case DenseStorer(d) => d.cols
      case DokStorer(k) => k.cols
    }

    predicate Valid()
      reads Footprint()
    {
      match this
      case DenseStorer(d) => d.Valid()
      case DokStorer(k) => k.Valid()
    }

    /** The cells the storer stands for. */
    function Matrix(): (m: seq<seq<int>>)
      reads Footprint()
      requires Valid()
      ensures IsMatrix(m, Rows(), Cols())
    {
      match this
      case DenseStorer(d) => d.Matrix()
      case DokStorer(k) => k.Matrix()
    }

    /** Clone keeps every cell: a dense storer, or a dok whose default is 0. */
    predicate ClonesExactly()
      reads Footprint()
    {
      DenseStorer? || dok.defaultValue == 0
    }

    /**
     * The cells a Clone holds. Dok.Clone builds its copy with NewDok, which leaves the
     * default at 0: a dok's clone keeps the explicit keys and reads 0 at every other cell.
     */
    function ClonedMatrix(): (m: seq<seq<int>>)
      reads Footprint()
      requires Valid()
      ensures IsMatrix(m, Rows(), Cols())
      ensures ClonesExactly() ==> m == Matrix()
      ensures DokStorer? ==> forall i, j | 0 <= i < Rows() && 0 <= j < Cols() ::
        m[i][j] == (if (i, j) in dok.cells then dok.cells[(i, j)] else 0)
    {
      match this
      case DenseStorer(d) => d.Matrix()
      case DokStorer(k) => KeyedMatrix(k.cells, 0, k.rows, k.cols)
    }

    /** Both storers are of the same kind, and two doks hold the same explicit keys. */
    predicate Mirrors(other: Storer)
      reads Footprint(), other.Footprint()
    {
      (DokStorer? <==> other.DokStorer?) && (DokStorer? ==> dok.cells == other.dok.cells)
    }

    function Get(i: int, j: int): (v: int)
      reads Footprint()
      requires Valid() && 0 <= i < Rows() && 0 <= j < Cols()
      ensures v == Matrix()[i][j]
    {
      match this
      case DenseStorer(d) => d.Get(i, j)
      case DokStorer(k) => k.Get(i, j)
    }

    /**
     * Set: cell (i, j) takes v. A dok keeps its default and drops the key when v is the
     * default, stores it otherwise; its clone then reads 0 or v there.
     */
    method Set(i: int, j: int, v: int)
      requires Valid() && 0 <= i < Rows() && 0 <= j < Cols()
      modifies Footprint()
      ensures Valid() && Matrix() == old(Matrix())[i := old(Matrix())[i][j := v]]
      ensures DokStorer? ==> dok.defaultValue == old(dok.defaultValue)
      ensures DokStorer? ==>
        dok.cells == if v == dok.defaultValue then old(dok.cells) - {(i, j)} else old(dok.cells)[(i, j) := v]
      ensures ClonesExactly() == old(ClonesExactly())
      ensures ClonedMatrix() ==
        old(ClonedMatrix())[i := old(ClonedMatrix())[i][j := if DokStorer? && v == dok.defaultValue then 0 else v]]
    {
      match this
      case DenseStorer(d) => d.Set(i, j, v);
      case DokStorer(k) =>
        ghost var before := k.cells;
        if v == k.defaultValue {
          DeleteUpdates(before, 0, k.rows, k.cols, i, j);
        } else {
          StoreUpdates(before, 0, k.rows, k.cols, i, j, v);
        }
        k.Set(i, j, v);
    }

    /** SetAll: every cell takes v; a dok's default becomes v and it holds no key, so its clone is all 0. */
    method SetAll(v: int)
      requires Valid()
      modifies Footprint()
      ensures Valid() && Matrix() == Filled(Rows(), Cols(), v)
      ensures DokStorer? ==> dok.defaultValue == v && dok.cells == map[]
      ensures ClonedMatrix() == Filled(Rows(), Cols(), if DokStorer? then 0 else v)
    {
      match this
      case DenseStorer(d) => d.SetAll(v);
      case DokStorer(k) =>
        k.SetAll(v);
        EmptyIsFilled(0, k.rows, k.cols);
    }

    /**
     * Clone: an independent storer of the same kind and extents with the same explicit
     * cells. It holds the original's cells exactly when ClonesExactly holds; a dok's clone
     * has default 0, so cloning a clone changes nothing.
     */
    method Clone() returns (c: Storer)
      requires Valid()
      ensures fresh(c.Footprint()) && c.Valid() && c.Rows() == Rows() && c.Cols() == Cols()
      ensures c.Matrix() == ClonedMatrix() && c.Mirrors(this) && c.ClonesExactly()
    {
      match this
      case DenseStorer(d) =>
        var copy := d.Clone();
        c := DenseStorer(copy);
      case DokStorer(k) =>
        var copy := k.Clone();
        c := DokStorer(copy);
    }

    /** CloneEmpty: an independent storer of the same kind and extents, every cell DEAD. */
    method CloneEmpty() returns (c: Storer)
      requires Valid()
      ensures fresh(c.Footprint()) && c.Valid() && c.Rows() == Rows() && c.Cols() == Cols()
      ensures c.Matrix() == Filled(Rows(), Cols(), DEAD)
      ensures (DokStorer? <==> c.DokStorer?) && c.ClonesExactly()
    {
      match this
      case DenseStorer(d) =>
        var copy := d.CloneEmpty();
        c := DenseStorer(copy);
      case DokStorer(k) =>
        var copy := k.CloneEmpty();
        c := DokStorer(copy);
    }
  }

  /** The panic of CellsStorerFactory for an unknown kind. */
  datatype FactoryError = InvalidGridType(gridType: string)

  /** ASCII lower-casing of one character. */
  function LowerChar(c: char): char {
    if 'A' <= c <= 'Z' then (c as int + 32) as char else c
  }

  /** strings.ToLower, restricted to ASCII letters. */
  function ToLower(s: string): string {
    seq(|s|, k requires 0 <= k < |s| => LowerChar(s[k]))
  }

  /**
   * CellsStorerFactory: "dense" and "dok", in any letter case, give an all-DEAD storer
   * of the requested extents (the dok with default DEAD); any other name panics.
   */
  method Factory(rows: nat, cols: nat, gridType: string) returns (r: Result<Storer, FactoryError>)
    ensures r.Success? <==> ToLower(gridType) == "dense" || ToLower(gridType) == "dok"
    ensures r.Failure? ==> r.error == InvalidGridType(gridType)
    ensures r.Success? ==> (r.value.DenseStorer? <==> ToLower(gridType) == "dense")
    ensures r.Success? ==>
      fresh(r.value.Footprint()) && r.value.Valid() && r.value.Rows() == rows && r.value.Cols() == cols &&
      r.value.Matrix() == Filled(rows, cols, DEAD) && r.value.ClonesExactly()
  {
    if ToLower(gridType) == "dense" {
      var d := new Dense(rows, cols);
      return Success(DenseStorer(d));
    }
    if ToLower(gridType) == "dok" {
      var k := new Dok(rows, cols, DEAD);
      return Success(DokStorer(k));
    }
    return Failure(InvalidGridType(gridType));
  }

  /**
   * e is the first difference of m and n in row-major order: the cells before it agree
   * and the cell it names differs, with the two values it prints.
   */
  predicate FirstDifference(m: seq<seq<int>>, n: seq<seq<int>>, rows: nat, cols: nat, e: EqError)
    requires IsMatrix(m, rows, cols) && IsMatrix(n, rows, cols)
  {
    e.CellsDiffer? && 0 <= e.i < rows && 0 <= e.j < cols &&
    e.mine == m[e.i][e.j] && e.theirs == n[e.i][e.j] && e.mine != e.theirs &&
    forall r, c | 0 <= r < rows && 0 <= c < cols && (r < e.i || (r == e.i && c < e.j)) :: m[r][c] == n[r][c]
  }

  /**
   * The cell-by-cell comparison: the extents (rows first), then every cell through Get in
   * row-major order, stopping at the first difference. Dok.EqualValuesError is this loop;
   * the dense storer's EqualsError delegates to a package-level EqualsError that is not
   * part of this model and is taken to be the same check, as the messages its tests
   * expect show.
   */
  method CellByCellError(a: Storer, b: Storer) returns (e: Option<EqError>)
    requires a.Valid() && b.Valid()
    ensures e.None? <==> a.Rows() == b.Rows() && a.Cols() == b.Cols() && a.Matrix() == b.Matrix()
    ensures a.Rows() != b.Rows() || a.Cols() != b.Cols() ==> e == DimensionsError(a.Rows(), a.Cols(), b.Rows(), b.Cols())
    ensures e.Some? ==> IsCellsError(e.value)
    ensures e.Some? && a.Rows() == b.Rows() && a.Cols() == b.Cols() ==>
      FirstDifference(a.Matrix(), b.Matrix(), a.Rows(), a.Cols(), e.value)
  {
    e := DimensionsError(a.Rows(), a.Cols(), b.Rows(), b.Cols());
    if e.Some? {
      return;
    }
    ghost var m, n := a.Matrix(), b.Matrix();
    var rows, cols := a.Rows(), a.Cols();
    var i := 0;
    while i < rows
      invariant 0 <= i <= rows
      invariant forall r, c | 0 <= r < i && 0 <= c < cols :: m[r][c] == n[r][c]
    {
      var j := 0;
      while j < cols
        invariant 0 <= j <= cols
        invariant forall r, c | 0 <= r < i && 0 <= c < cols :: m[r][c] == n[r][c]
        invariant forall c | 0 <= c < j :: m[i][c] == n[i][c]
      {
        var x := a.Get(i, j);
        var y := b.Get(i, j);
        if x != y {
          return Some(CellsDiffer(i, j, x, y));
        }
        j := j + 1;
      }
      i := i + 1;
    }
    MatrixExt(m, n, rows, cols);
  }

  /** What the receiver's EqualsError (values false) or EqualValuesError (values true) accepts. */
  predicate CellsEqual(a: Storer, b: Storer, values: bool)
    reads a.Footprint(), b.Footprint()
    requires a.Valid() && b.Valid()
  {
    a.Rows() == b.Rows() && a.Cols() == b.Cols() &&
    if values || a.DenseStorer? then a.Matrix() == b.Matrix()
    else b.DokStorer? && a.dok.cells == b.dok.cells
  }

  /**
   * Dok.EqualsError asserts that its argument is a dok once the extents agree; a dense
   * argument of the same extents panics there.
   */
  predicate Comparable(a: Storer, b: Storer, values: bool) {
    values || a.DenseStorer? || b.DokStorer? || a.Rows() != b.Rows() || a.Cols() != b.Cols()
  }

  /** EqualsError of the receiver's kind: cell by cell for a dense storer, by keys for a dok. */
  method EqualsError(a: Storer, b: Storer) returns (e: Option<EqError>)
    requires a.Valid() && b.Valid() && Comparable(a, b, false)
    ensures e.None? <==> CellsEqual(a, b, false)
    ensures e.Some? ==> IsCellsError(e.value)
    ensures a.Rows() != b.Rows() || a.Cols() != b.Cols() ==> e == DimensionsError(a.Rows(), a.Cols(), b.Rows(), b.Cols())
    ensures e.Some? && a.DenseStorer? && a.Rows() == b.Rows() && a.Cols() == b.Cols() ==>
      FirstDifference(a.Matrix(), b.Matrix(), a.Rows(), a.Cols(), e.value)
  {
    match a
    case DenseStorer(_) =>
      e := CellByCellError(a, b);
    case DokStorer(k) =>
      if b.DokStorer? {
        e := k.EqualsError(b.dok);
      } else {
        e := DimensionsError(a.Rows(), a.Cols(), b.Rows(), b.Cols());
      }
  }

  /** EqualValuesError: cell by cell for both kinds. */
  method EqualValuesError(a: Storer, b: Storer) returns (e: Option<EqError>)
    requires a.Valid() && b.Valid()
    ensures e.None? <==> CellsEqual(a, b, true)
    ensures e.Some? ==> IsCellsError(e.value)
    ensures a.Rows() != b.Rows() || a.Cols() != b.Cols() ==> e == DimensionsError(a.Rows(), a.Cols(), b.Rows(), b.Cols())
    ensures e.Some? && a.Rows() == b.Rows() && a.Cols() == b.Cols() ==>
      FirstDifference(a.Matrix(), b.Matrix(), a.Rows(), a.Cols(), e.value)
  {
    e := CellByCellError(a, b);
  }

  /** Equals: EqualsError found nothing. */
  method Equals(a: Storer, b: Storer) returns (eq: bool)
    requires a.Valid() && b.Valid() && Comparable(a, b, false)
    ensures eq <==> CellsEqual(a, b, false)
  {
    var e := EqualsError(a, b);
    eq := e.None?;
  }

  /**
   * EqualValues: for a dense storer, Equals; for a dok, as written, the negation of
   * "EqualValuesError found nothing", so it answers true exactly when the cells differ.
   */
  method EqualValues(a: Storer, b: Storer) returns (eq: bool)
    requires a.Valid() && b.Valid()
    ensures a.DenseStorer? ==> (eq <==> CellsEqual(a, b, true))
    ensures a.DokStorer? ==> (eq <==> !CellsEqual(a, b, true))
  {
    match a
    case DenseStorer(_) =>
      eq := Equals(a, b);
    case DokStorer(_) =>
      var e := EqualValuesError(a, b);
      eq := e.Some?;
  }
}
