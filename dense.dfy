/**
 * The dense cell storer (pkg/grid/dense.go): a row-major array of rows * cols
 * cells, cell (i, j) living at position i * cols + j.
 */
module DenseStorage {
  import opened Topology

  /** pos: where cell (i, j) lives in the row-major array. */
  function Pos(i: int, j: int, cols: nat): int {
    i * cols + j
  }

  /** An in-range cell has a position inside the array. */
  lemma PosBounds(i: int, j: int, rows: nat, cols: nat)
    requires 0 <= i < rows && 0 <= j < cols
    ensures 0 <= Pos(i, j, cols) < rows * cols
  {
    assert i * cols <= (rows - 1) * cols;
  }

  /** The row and the column are recovered from the position, so pos is injective. */
  lemma {:induction false} PosInverse(i: int, j: int, cols: nat)
    requires 0 <= i && 0 <= j < cols
    ensures Pos(i, j, cols) / cols == i && Pos(i, j, cols) % cols == j
  {
    DivModUnique(Pos(i, j, cols), cols, i, j);
  }

  /** Distinct in-range cells live at distinct positions. */
  lemma PosInjective(i: int, j: int, k: int, l: int, cols: nat)
    requires 0 <= i && 0 <= j < cols && 0 <= k && 0 <= l < cols
    requires Pos(i, j, cols) == Pos(k, l, cols)
    ensures i == k && j == l
  {
    PosInverse(i, j, cols);
    PosInverse(k, l, cols);
  }

  /** The matrix a row-major array stands for. */
  function Unflatten(flat: seq<int>, rows: nat, cols: nat): (m: seq<seq<int>>)
    requires |flat| == rows * cols
    ensures IsMatrix(m, rows, cols)
  {
    seq(rows, i requires 0 <= i < rows =>
      seq(cols, j requires 0 <= j < cols => PosBounds(i, j, rows, cols); flat[Pos(i, j, cols)]))
  }

  /** Writing one position of the array writes exactly the one cell of the matrix. */
  lemma UnflattenUpdate(flat: seq<int>, rows: nat, cols: nat, i: int, j: int, v: int)
    requires |flat| == rows * cols && 0 <= i < rows && 0 <= j < cols
    ensures 0 <= Pos(i, j, cols) < |flat|
    ensures Unflatten(flat[Pos(i, j, cols) := v], rows, cols) ==
      Unflatten(flat, rows, cols)[i := Unflatten(flat, rows, cols)[i][j := v]]
  {
    PosBounds(i, j, rows, cols);
    var a := Unflatten(flat[Pos(i, j, cols) := v], rows, cols);
    var m := Unflatten(flat, rows, cols);
    var b := m[i := m[i][j := v]];
    forall r, c | 0 <= r < rows && 0 <= c < cols
      ensures a[r][c] == b[r][c]
    {
      PosBounds(r, c, rows, cols);
      if Pos(r, c, cols) == Pos(i, j, cols) {
        PosInjective(r, c, i, j, cols);
      }
    }
    MatrixExt(a, b, rows, cols);
  }

  /** An array holding v everywhere stands for the matrix filled with v. */
  lemma UnflattenConstant(flat: seq<int>, rows: nat, cols: nat, v: int)
    requires |flat| == rows * cols
    requires forall p | 0 <= p < |flat| :: flat[p] == v
    ensures Unflatten(flat, rows, cols) == Filled(rows, cols, v)
  {
    var m := Unflatten(flat, rows, cols);
    forall r, c | 0 <= r < rows && 0 <= c < cols
      ensures m[r][c] == v
    {
      PosBounds(r, c, rows, cols);
    }
    MatrixExt(m, Filled(rows, cols, v), rows, cols);
  }

  /** The dense storer: fixed extents and one array of cells. */
  class Dense {
    const rows: nat
    const cols: nat
    const cells: array<int>

    predicate Valid() {
      cells.Length == rows * cols
    }

    /** The cells as a matrix. */
    function Matrix(): (m: seq<seq<int>>)
      reads cells
      requires Valid()
      ensures IsMatrix(m, rows, cols)
    {
      Unflatten(cells[..], rows, cols)
    }

    /** NewDense: every cell starts at 0 (DEAD). */
    constructor (rows: nat, cols: nat)
      ensures Valid() && this.rows == rows && this.cols == cols && fresh(cells)
      ensures Matrix() == Filled(rows, cols, 0)
    {
      this.rows := rows;
      this.cols := cols;
      cells := new int[rows * cols](_ => 0);
      new;
      UnflattenConstant(cells[..], rows, cols, 0);
    }

    /** Get: the cell at (i, j); indices outside the extents panic (assertIndexes). */
    function Get(i: int, j: int): (v: int)
      reads cells
      requires Valid() && 0 <= i < rows && 0 <= j < cols
      ensures v == Matrix()[i][j]
    {
      PosBounds(i, j, rows, cols);
      cells[Pos(i, j, cols)]
    }

    /** Set: writes cell (i, j) and no other; indices outside the extents panic. */
    method Set(i: int, j: int, v: int)
      requires Valid() && 0 <= i < rows && 0 <= j < cols
      modifies cells
      ensures Matrix() == old(Matrix())[i := old(Matrix())[i][j := v]]
    {
      PosBounds(i, j, rows, cols);
      UnflattenUpdate(cells[..], rows, cols, i, j, v);
      cells[Pos(i, j, cols)] := v;
    }

    /** SetAll: the loop writing v at every position. */
    method SetAll(v: int)
      requires Valid()
      modifies cells
      ensures Matrix() == Filled(rows, cols, v)
    {
      var p := 0;
      while p < rows * cols
        invariant 0 <= p <= rows * cols
        invariant forall k | 0 <= k < p :: cells[k] == v
      {
        cells[p] := v;
        p := p + 1;
      }
      UnflattenConstant(cells[..], rows, cols, v);
    }

    /** Clone: a new storer of the same extents, its array copied position by position. */
    method Clone() returns (d: Dense)
      requires Valid()
      ensures fresh(d.cells) && d.Valid() && d.rows == rows && d.cols == cols
      ensures d.Matrix() == Matrix()
    {
      d := new Dense(rows, cols);
      var p := 0;
      while p < rows * cols
        invariant 0 <= p <= rows * cols
        invariant forall k | 0 <= k < p :: d.cells[k] == cells[k]
      {
        d.cells[p] := cells[p];
        p := p + 1;
      }
      assert d.cells[..] == cells[..];
    }

    /** CloneEmpty: a new storer of the same extents with every cell 0. */
    method CloneEmpty() returns (d: Dense)
      requires Valid()
      ensures fresh(d.cells) && d.Valid() && d.rows == rows && d.cols == cols
      ensures d.Matrix() == Filled(rows, cols, 0)
    {
      d := new Dense(rows, cols);
    }
  }
}
