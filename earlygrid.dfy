/**
 * The grid of the first revision (src/gol/grid.go): rows x cols statuses in one flat
 * slice, row-major, with both axes limited (reads off the grid give VOID). Its abstract
 * value is a Topology.Board with limitRows and limitCols set, so the reads, the
 * neighbours and the count agree with the later engine's on limited grids.
 */
module EarlyGrid {
  import opened Wrappers
  import opened Statuses
  import opened Topology
  import opened Neighborhood
  import Life

  /** Multiplying by a non-negative factor keeps the order. */
  lemma MulMonotonic(a: int, b: int, c: int)
    requires a <= b && 0 <= c
    ensures a * c <= b * c
  {
    assert b * c - a * c == (b - a) * c;
  }

  /** getPos of an in-range (i, j): a position of the flat cells, from which (i, j) is recovered. */
  function Pos(rows: nat, cols: nat, i: int, j: int): (p: nat)
    requires 0 <= i < rows && 0 <= j < cols
    ensures p == i * cols + j && p < rows * cols
    ensures p / cols == i && p % cols == j
  {
    DivModUnique(i * cols + j, cols, i, j);
    MulMonotonic(i + 1, rows, cols);
    assert (i + 1) * cols == i * cols + cols;
    i * cols + j
  }

  /** The cell a position of the flat cells belongs to. */
  function Cell(rows: nat, cols: nat, p: int): (ij: (int, int))
    requires 0 <= p < rows * cols
    ensures 0 <= ij.0 < rows && 0 <= ij.1 < cols && Pos(rows, cols, ij.0, ij.1) == p
  {
    assert cols > 0;
    assert p / cols < rows;
    (p / cols, p % cols)
  }

  /** The flat cells read as a limited board: cell (i, j) is the value at getPos(i, j). */
  function ToBoard(rows: nat, cols: nat, flat: seq<int>): (b: Board)
    requires |flat| == rows * cols
    ensures b.Valid() && b.rows == rows && b.cols == cols && b.limitRows && b.limitCols
    ensures forall i, j | b.InRange(i, j) :: b.cells[i][j] == flat[Pos(rows, cols, i, j)]
  {
    Board(rows, cols, true, true,
      seq(rows, i requires 0 <= i < rows => seq(cols, j requires 0 <= j < cols => flat[Pos(rows, cols, i, j)])))
  }

  /** Different flat cells give different boards: the board loses nothing of the slice. */
  lemma ToBoardInjective(rows: nat, cols: nat, a: seq<int>, b: seq<int>)
    requires |a| == rows * cols && |b| == rows * cols
    ensures ToBoard(rows, cols, a) == ToBoard(rows, cols, b) <==> a == b
  {
    if ToBoard(rows, cols, a) == ToBoard(rows, cols, b) {
      forall p | 0 <= p < rows * cols
        ensures a[p] == b[p]
      {
        var ij := Cell(rows, cols, p);
        assert ToBoard(rows, cols, a).cells[ij.0][ij.1] == ToBoard(rows, cols, b).cells[ij.0][ij.1];
      }
    }
  }

  /** Writing position p of the flat cells is the board's Set of the cell p belongs to. */
  lemma ToBoardWrite(rows: nat, cols: nat, flat: seq<int>, p: int, v: int)
    requires |flat| == rows * cols && 0 <= p < rows * cols
    ensures ToBoard(rows, cols, flat).CanWrite(Cell(rows, cols, p).0, Cell(rows, cols, p).1)
    ensures ToBoard(rows, cols, flat[p := v]) == ToBoard(rows, cols, flat).Set(Cell(rows, cols, p).0, Cell(rows, cols, p).1, v)
  {
    var b := ToBoard(rows, cols, flat);
    var ij := Cell(rows, cols, p);
    var after := ToBoard(rows, cols, flat[p := v]);
    SetThenGet(b, ij.0, ij.1, v);
    var written := b.Set(ij.0, ij.1, v);
    forall r, c | 0 <= r < rows && 0 <= c < cols
      ensures after.cells[r][c] == written.cells[r][c]
    {
      assert Pos(rows, cols, r, c) == p <==> (r, c) == ij;
    }
    BoardExt(after, written);
  }

  /** The rows x cols board of DEAD cells, as NewGrid makes it. */
  function DeadBoard(rows: nat, cols: nat): (b: Board)
    ensures b.Valid() && Life.AllStatuses(b)
  {
    Board(rows, cols, true, true, Filled(rows, cols, DEAD))
  }

  /**
   * equals as written, on the values it reads: unequal rows give false; otherwise the
   * flat cells are compared position by position up to the receiver's length, so a
   * mismatch gives false, running off the end of a shorter argument is the
   * index-out-of-range panic (None), and anything else gives true. The columns take no
   * part: the test `g.cols != g.cols` compares the receiver with itself.
   */
  function EqualsOutcome(rows: int, flat: seq<int>, otherRows: int, otherFlat: seq<int>): Option<bool>
  {
    if rows != otherRows then Some(false)
    else if exists p | 0 <= p < |flat| && p < |otherFlat| :: flat[p] != otherFlat[p] then Some(false)
    else if |otherFlat| < |flat| then None
    else Some(true)
  }

  /**
   * On grids of the same extents, equals as written is equality of the boards: the
   * ignored column test only matters when the extents differ.
   */
  lemma EqualsOutcomeSameExtents(rows: nat, cols: nat, a: seq<int>, b: seq<int>)
    requires |a| == rows * cols && |b| == rows * cols
    ensures EqualsOutcome(rows, a, rows, b) == Some(ToBoard(rows, cols, a) == ToBoard(rows, cols, b))
  {
    ToBoardInjective(rows, cols, a, b);
    if a != b {
      var p :| 0 <= p < |a| && a[p] != b[p];
    }
  }

  /**
   * The column test never fires: an all-DEAD 2x2 grid equals an all-DEAD 2x3 grid as
   * written, though the two boards differ.
   */
  lemma EqualsAsWrittenIgnoresCols()
    ensures EqualsOutcome(2, [DEAD, DEAD, DEAD, DEAD], 2, [DEAD, DEAD, DEAD, DEAD, DEAD, DEAD]) == Some(true)
    ensures ToBoard(2, 2, [DEAD, DEAD, DEAD, DEAD]) != ToBoard(2, 3, [DEAD, DEAD, DEAD, DEAD, DEAD, DEAD])
  {
  }

  /** Grid: the flat cells and the two extents. */
  class Grid {
    var cells: array<int>
    var rows: int
    var cols: int

    /** Non-negative extents and rows * cols cells. */
    predicate Valid()
      reads this
    {
      0 <= rows && 0 <= cols && cells.Length == rows * cols
    }

    /** The cells as a limited board. */
    function View(): Board
      reads this, cells
      requires Valid()
    {
      ToBoard(rows, cols, cells[..])
    }

    /** NewGrid: rows * cols cells, each set to DEAD. */
    constructor (rows: int, cols: int)
      requires 0 <= rows && 0 <= cols
      ensures Valid() && fresh(cells) && View() == DeadBoard(rows, cols)
    {
      this.rows := rows;
      this.cols := cols;
      cells := new int[rows * cols];
      new;
      var k := 0;
      while k < rows * cols
        invariant 0 <= k <= rows * cols
        invariant Valid() && this.rows == rows && this.cols == cols && fresh(cells)
        invariant forall m | 0 <= m < k :: cells[m] == DEAD
      {
        cells[k] := DEAD;
        k := k + 1;
      }
      BoardExt(View(), DeadBoard(rows, cols));
    }

    /** new(Grid) with its extents and a made (zeroed, here unconstrained) slice, as clone starts. */
    constructor Sized(rows: int, cols: int)
      requires 0 <= rows && 0 <= cols
      ensures Valid() && fresh(cells) && this.rows == rows && this.cols == cols
    {
      this.rows := rows;
      this.cols := cols;
      cells := new int[rows * cols];
    }

    /** get: VOID off the grid, the cell at getPos otherwise; this is the board's read. */
    function Get(i: int, j: int): (v: int)
      reads this, cells
      requires Valid()
      ensures v == View().Get(i, j)
      ensures !View().InRange(i, j) ==> v == VOID
    {
      GetSemantics(View(), i, j);
      if i < 0 || i >= rows || j < 0 || j >= cols then VOID
      else cells[Pos(rows, cols, i, j)]
    }

    /**
     * set: writes position i * cols + j with no bounds check of its own, so an index
     * past the end of a row writes a cell of another row; only a position off the slice
     * panics. In range, it is the board's Set.
     */
    method Set(i: int, j: int, v: int)
      requires Valid() && 0 <= i * cols + j < rows * cols
      modifies cells
      ensures Valid() && cells[..] == old(cells[..])[i * cols + j := v]
      ensures View() == old(View()).Set(Cell(rows, cols, i * cols + j).0, Cell(rows, cols, i * cols + j).1, v)
      ensures View().InRange(i, j) ==> View() == old(View()).Set(i, j, v)
    {
      ToBoardWrite(rows, cols, cells[..], i * cols + j, v);
      cells[i * cols + j] := v;
      if View().InRange(i, j) {
        assert Pos(rows, cols, i, j) == i * cols + j;
      }
    }

    /** neighbors: the eight Moore values around (i, j), in the later engine's order. */
    function Neighbors(i: int, j: int): (s: seq<int>)
      reads this, cells
      requires Valid()
      ensures s == MooreNeighbors(View(), i, j)
      ensures |s| == 8
    {
      [Get(i - 1, j - 1), Get(i - 1, j), Get(i - 1, j + 1),
       Get(i, j - 1), Get(i, j + 1),
       Get(i + 1, j - 1), Get(i + 1, j), Get(i + 1, j + 1)]
    }

    /** aliveNeighborsCount: the loop over the neighbours counting the ALIVE ones. */
    method AliveNeighborsCount(i: int, j: int) returns (count: int)
      requires Valid()
      ensures count == Life.AliveCount(View(), Moore, i, j)
      ensures 0 <= count <= 8
    {
      var neighbors := Neighbors(i, j);
      count := 0;
      var k := 0;
      while k < |neighbors|
        invariant 0 <= k <= |neighbors|
        invariant count == Count(neighbors[..k], ALIVE)
      {
        assert neighbors[..k + 1][..k] == neighbors[..k];
        if neighbors[k] == ALIVE {
          count := count + 1;
        }
        k := k + 1;
      }
      assert neighbors[..k] == neighbors;
    }

    /** equals as written: see EqualsOutcome. */
    method EqualsAsWritten(other: Grid) returns (r: Option<bool>)
      requires Valid() && other.Valid()
      ensures r == EqualsOutcome(rows, cells[..], other.rows, other.cells[..])
    {
      if rows != other.rows || cols != cols {
        return Some(false);
      }
      var pos := 0;
      while pos < rows * cols
        invariant 0 <= pos <= rows * cols && pos <= other.cells.Length
        invariant forall m | 0 <= m < pos :: cells[m] == other.cells[m]
      {
        if pos >= other.cells.Length {
          return None;
        }
        if cells[pos] != other.cells[pos] {
          return Some(false);
        }
        pos := pos + 1;
      }
      r := Some(true);
    }

    /** equals as evidently intended: both extents, then the cells; exactly equality of the boards. */
    method Equals(other: Grid) returns (eq: bool)
      requires Valid() && other.Valid()
      ensures eq <==> View() == other.View()
    {
      if rows != other.rows || cols != other.cols {
        return false;
      }
      ToBoardInjective(rows, cols, cells[..], other.cells[..]);
      var pos := 0;
      while pos < rows * cols
        invariant 0 <= pos <= rows * cols
        invariant forall m | 0 <= m < pos :: cells[m] == other.cells[m]
      {
        if cells[pos] != other.cells[pos] {
          assert cells[..][pos] != other.cells[..][pos];
          return false;
        }
        pos := pos + 1;
      }
      assert cells[..] == other.cells[..];
      eq := true;
    }

    /** clone: a new grid with its own slice holding the same cells. */
    method Clone() returns (c: Grid)
      requires Valid()
      ensures fresh(c) && fresh(c.cells) && c.Valid()
      ensures c.rows == rows && c.cols == cols && c.cells[..] == cells[..] && c.View() == View()
    {
      c := new Grid.Sized(rows, cols);
      var k := 0;
      while k < rows * cols
        invariant 0 <= k <= rows * cols
        invariant c.Valid() && c.rows == rows && c.cols == cols && fresh(c.cells)
        invariant forall m | 0 <= m < k :: c.cells[m] == cells[m]
      {
        c.cells[k] := cells[k];
        k := k + 1;
      }
      assert c.cells[..] == cells[..];
    }
  }
}
