/**
 * Grid topology (pkg/grid/grid.go): every axis is either "limited" (reads outside
 * [0, extent) give VOID) or "unlimited" (indices wrap around, so the grid is a torus
 * along that axis). The abstract value of a grid is a Board: its extents, its two
 * limit flags and its cells in row-major nested sequences.
 */
module Topology {
  import opened Statuses

  /** Go's integer `/`, which truncates toward zero. */
  function GoQuot(a: int, n: int): int
    requires n > 0
  {
    if a >= 0 then a / n else -((-a) / n)
  }

  /** Go's integer `%`: the remainder of the truncating division, with the sign of `a`. */
  function GoRem(a: int, n: int): (r: int)
    requires n > 0
    ensures -n < r < n
    ensures a >= 0 ==> r >= 0
    ensures a < 0 ==> r <= 0
  {
    if a >= 0 then a % n else -((-a) % n)
  }

  /** Go's quotient and remainder recompose the dividend. */
  lemma GoDivision(a: int, n: int)
    requires n > 0
    ensures a == GoQuot(a, n) * n + GoRem(a, n)
  {
    if a < 0 {
      assert -a == ((-a) / n) * n + (-a) % n;
    }
  }

  /** The index normalisation of an unlimited axis, `((i % n) + n) % n` with Go's `%`. */
  function Wrap(i: int, n: int): int
    requires n > 0
  {
    GoRem(GoRem(i, n) + n, n)
  }

  /** Euclidean division is unique: a remainder in [0, n) fixes quotient and remainder. */
  lemma DivModUnique(x: int, n: int, k: int, r: int)
    requires n > 0 && 0 <= r < n && x == k * n + r
    ensures x / n == k && x % n == r
  {
    var q, m := x / n, x % n;
    assert x == q * n + m;
    assert (q - k) * n == r - m;
    assert q - k >= 1 ==> (q - k) * n >= n;
    assert q - k <= -1 ==> (q - k) * n <= -n;
  }

  /** The Go formula, written with the truncating remainder, is Dafny's Euclidean `i % n`. */
  lemma WrapIsEuclidean(i: int, n: int)
    requires n > 0
    ensures Wrap(i, n) == i % n
  {
    var r := GoRem(i, n);
    var q := GoQuot(i, n);
    GoDivision(i, n);
    var x := r + n;
    assert 0 < x < 2 * n;
    assert Wrap(i, n) == x % n;
    var e := i % n;
    assert i == (i / n) * n + e;
    assert x == (i / n - q + 1) * n + e;
    DivModUnique(x, n, i / n - q + 1, e);
  }

  /** On an unlimited axis every index lands in range and in-range indices stay put. */
  lemma WrapInRange(i: int, n: int)
    requires n > 0
    ensures 0 <= Wrap(i, n) < n
    ensures 0 <= i < n ==> Wrap(i, n) == i
  {
    WrapIsEuclidean(i, n);
    if 0 <= i < n {
      DivModUnique(i, n, 0, i);
    }
  }

  /** An unlimited axis has period n. */
  lemma WrapPeriodic(i: int, n: int)
    requires n > 0
    ensures Wrap(i + n, n) == Wrap(i, n)
  {
    WrapIsEuclidean(i, n);
    WrapIsEuclidean(i + n, n);
    var e := i % n;
    assert i == (i / n) * n + e;
    assert i + n == (i / n + 1) * n + e;
    DivModUnique(i + n, n, i / n + 1, e);
  }

  /** True when the index falls off a limited axis; an unlimited axis never loses an index. */
  predicate IsOut(limited: bool, i: int, n: nat) {
    limited && (i < 0 || i >= n)
  }

  /** Where an index lands on one axis: itself when limited, wrapped otherwise. */
  function Normalize(limited: bool, i: int, n: nat): int
    requires limited || n > 0
  {
    if limited then i else Wrap(i, n)
  }

  /** The text LimitRowsString/LimitColsString report for an axis. */
  function LimitString(limited: bool): (s: string)
    ensures s == "limited" || s == "unlimited"
    ensures (s == "limited") == limited
  {
    if limited then "limited" else "unlimited"
  }

  /** m has `rows` rows of `cols` cells each. */
  predicate IsMatrix(m: seq<seq<int>>, rows: nat, cols: nat) {
    |m| == rows && forall r | 0 <= r < rows :: |m[r]| == cols
  }

  /** The rows x cols matrix every cell of which is v. */
  function Filled(rows: nat, cols: nat, v: int): (m: seq<seq<int>>)
    ensures IsMatrix(m, rows, cols)
    ensures forall r, c | 0 <= r < rows && 0 <= c < cols :: m[r][c] == v
  {
    seq(rows, _ => seq(cols, _ => v))
  }

  /** Two matrices of the same shape whose cells agree everywhere are equal. */
  lemma MatrixExt(a: seq<seq<int>>, b: seq<seq<int>>, rows: nat, cols: nat)
    requires IsMatrix(a, rows, cols) && IsMatrix(b, rows, cols)
    requires forall r, c | 0 <= r < rows && 0 <= c < cols :: a[r][c] == b[r][c]
    ensures a == b
  {
    forall r | 0 <= r < rows
      ensures a[r] == b[r]
    {
      assert forall c | 0 <= c < cols :: a[r][c] == b[r][c];
    }
  }

  /** A grid's contents together with its topology. */
  datatype Board = Board(rows: nat, cols: nat, limitRows: bool, limitCols: bool, cells: seq<seq<int>>)
  {
    predicate Valid() {
      IsMatrix(cells, rows, cols)
    }

    predicate InRange(i: int, j: int) {
      0 <= i < rows && 0 <= j < cols
    }

    /**
     * Grid.Get is defined at (i, j): either the read falls off a limited axis, or both
     * axes are non-empty (otherwise the wrap divides by zero).
     */
    predicate CanRead(i: int, j: int) {
      IsOut(limitRows, i, rows) || IsOut(limitCols, j, cols) || (rows > 0 && cols > 0)
    }

    /** Every coordinate is readable. */
    predicate Readable() {
      (rows > 0 || limitRows) && (cols > 0 || limitCols)
    }

    /** Grid.Set is defined at (i, j): in range on a limited axis, non-empty on an unlimited one. */
    predicate CanWrite(i: int, j: int) {
      (if limitRows then 0 <= i < rows else rows > 0) &&
      (if limitCols then 0 <= j < cols else cols > 0)
    }

    /** Grid.Get on the abstract value. */
    function Get(i: int, j: int): int
      requires Valid() && CanRead(i, j)
    {
      if IsOut(limitRows, i, rows) || IsOut(limitCols, j, cols) then VOID
      else
        WrapInRange(i, rows);
        WrapInRange(j, cols);
        cells[Normalize(limitRows, i, rows)][Normalize(limitCols, j, cols)]
    }

    /** Grid.Set on the abstract value: write the cell the indices normalise to. */
    function Set(i: int, j: int, v: int): (b: Board)
      requires Valid() && CanWrite(i, j)
      ensures b.Valid() && b.rows == rows && b.cols == cols
      ensures b.limitRows == limitRows && b.limitCols == limitCols
    {
      WrapInRange(i, rows);
      WrapInRange(j, cols);
      var ni, nj := Normalize(limitRows, i, rows), Normalize(limitCols, j, cols);
      this.(cells := cells[ni := cells[ni][nj := v]])
    }

    /** The board with the same shape and every cell equal to v (SetAll). */
    function Fill(v: int): (b: Board)
      ensures b.Valid() && b.rows == rows && b.cols == cols
      ensures b.limitRows == limitRows && b.limitCols == limitCols
      ensures forall r, c | 0 <= r < rows && 0 <= c < cols :: b.cells[r][c] == v
    {
      this.(cells := Filled(rows, cols, v))
    }
  }

  /** Two boards of the same shape whose cells agree everywhere are the same board. */
  lemma BoardExt(a: Board, b: Board)
    requires a.Valid() && b.Valid()
    requires a.rows == b.rows && a.cols == b.cols
    requires a.limitRows == b.limitRows && a.limitCols == b.limitCols
    requires forall r, c | 0 <= r < a.rows && 0 <= c < a.cols :: a.cells[r][c] == b.cells[r][c]
    ensures a == b
  {
    MatrixExt(a.cells, b.cells, a.rows, a.cols);
  }

  /**
   * Reads off a limited axis yield VOID; in range, the read is the stored cell whatever
   * the topology (normalisation is the identity there).
   */
  lemma {:induction false} GetSemantics(b: Board, i: int, j: int)
    requires b.Valid()
    ensures (IsOut(b.limitRows, i, b.rows) || IsOut(b.limitCols, j, b.cols)) ==> b.CanRead(i, j) && b.Get(i, j) == VOID
    ensures b.InRange(i, j) ==> b.CanRead(i, j) && b.Get(i, j) == b.cells[i][j]
  {
    if b.InRange(i, j) {
      WrapInRange(i, b.rows);
      WrapInRange(j, b.cols);
    }
  }

  /**
   * On an unlimited row axis the grid repeats every `rows` rows, and the row index
   * never makes a read VOID.
   */
  lemma {:induction false} GetRowPeriodic(b: Board, i: int, j: int)
    requires b.Valid() && !b.limitRows && b.rows > 0 && b.CanRead(i, j)
    ensures b.CanRead(i + b.rows, j) && b.Get(i + b.rows, j) == b.Get(i, j)
    ensures !IsOut(b.limitCols, j, b.cols) ==> b.Get(i, j) == b.cells[i % b.rows][Normalize(b.limitCols, j, b.cols)]
  {
    WrapInRange(i, b.rows);
    WrapInRange(i + b.rows, b.rows);
    WrapPeriodic(i, b.rows);
    WrapIsEuclidean(i, b.rows);
  }

  /** On an unlimited column axis the grid repeats every `cols` columns. */
  lemma {:induction false} GetColPeriodic(b: Board, i: int, j: int)
    requires b.Valid() && !b.limitCols && b.cols > 0 && b.CanRead(i, j)
    ensures b.CanRead(i, j + b.cols) && b.Get(i, j + b.cols) == b.Get(i, j)
    ensures !IsOut(b.limitRows, i, b.rows) ==> b.Get(i, j) == b.cells[Normalize(b.limitRows, i, b.rows)][j % b.cols]
  {
    WrapInRange(j, b.cols);
    WrapInRange(j + b.cols, b.cols);
    WrapPeriodic(j, b.cols);
    WrapIsEuclidean(j, b.cols);
  }

  /** A write is read back at the written coordinates, and leaves every other stored cell alone. */
  lemma {:induction false} SetThenGet(b: Board, i: int, j: int, v: int)
    requires b.Valid() && b.CanWrite(i, j)
    ensures b.CanRead(i, j) && b.Set(i, j, v).Get(i, j) == v
    ensures forall r, c | b.InRange(r, c) ::
      b.Set(i, j, v).cells[r][c] ==
        if r == Normalize(b.limitRows, i, b.rows) && c == Normalize(b.limitCols, j, b.cols) then v else b.cells[r][c]
  {
    WrapInRange(i, b.rows);
    WrapInRange(j, b.cols);
  }
}
