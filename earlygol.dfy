/**
 * The automaton of the first revision (src/gol/gol.go): a grid and a generation number,
 * stepped with the rule hard-coded as 23/3 on the Moore neighbourhood. Its step is the
 * later engine's Life.Step under Rules.Conway() on a limited board.
 */
module EarlyGol {
  import opened Wrappers
  import opened Statuses
  import opened Topology
  import opened Neighborhood
  import Rules
  import Life
  import Spawning
  import opened EarlyGrid

  /**
   * The body of NextGeneration's inner loop: the live-neighbour count and the status of
   * (i, j) on grid, then the switch: 2 or 3 keep a live cell alive, 3 brings a dead cell
   * to life, any other status is the "Invalid cell status" panic. The value is written at
   * (i, j) of next.
   */
  method StepCell(grid: Grid, ghost b: Board, next: Grid, ghost nb: Board, i: int, j: int)
      returns (r: Result<int, Life.StepError>)
    requires grid.Valid() && b == grid.View() && b.InRange(i, j)
    requires next.Valid() && next.View() == nb && nb.rows == b.rows && nb.cols == b.cols
    requires grid.cells != next.cells
    modifies next.cells
    ensures r == Life.NextCell(b, Rules.Conway(), Moore, i, j)
    ensures next.Valid() && next.View() == if r.Success? then nb.Set(i, j, r.value) else nb
  {
    var aliveNeighborsCount := grid.AliveNeighborsCount(i, j);
    var status := grid.Get(i, j);
    GetSemantics(b, i, j);
    ghost var expected := Life.NextCell(b, Rules.Conway(), Moore, i, j);
    if status == ALIVE {
      if aliveNeighborsCount == 2 || aliveNeighborsCount == 3 {
        r := Success(ALIVE);
      } else {
        r := Success(DEAD);
      }
    } else if status == DEAD {
      if aliveNeighborsCount == 3 {
        r := Success(ALIVE);
      } else {
        r := Success(DEAD);
      }
    } else {
      return Failure(Life.InvalidStatus(i, j));
    }
    assert r == expected;
    next.Set(i, j, r.value);
  }

  /**
   * The two loops of NextGeneration over a copy of the grid: every cell in row-major
   * order. Either every cell was a status and next holds the next generation, or the
   * first invalid cell stopped the loops.
   */
  method StepCells(grid: Grid, ghost b: Board, next: Grid) returns (r: Option<Life.StepError>)
    requires grid.Valid() && b == grid.View() && next.Valid()
    requires next.rows == grid.rows && next.cols == grid.cols && grid.cells != next.cells
    modifies next.cells
    ensures next.Valid()
    ensures r.None? <==> Life.AllStatuses(b)
    ensures r.None? ==> next.View() == Life.Step(b, Rules.Conway(), Moore)
    ensures r.Some? ==> Spawning.FirstInvalid(b, r.value.i, r.value.j)
  {
    ghost var rule, kind := Rules.Conway(), Moore;
    ghost var nb := next.View();
    var i := 0;
    while i < grid.rows
      invariant 0 <= i <= grid.rows
      invariant next.Valid() && next.View() == nb
      invariant nb.rows == b.rows && nb.cols == b.cols && nb.limitRows == b.limitRows && nb.limitCols == b.limitCols
      invariant Spawning.ComputedBefore(b, rule, kind, nb, i, 0)
    {
      var j := 0;
      while j < grid.cols
        invariant 0 <= j <= grid.cols
        invariant next.Valid() && next.View() == nb
        invariant nb.rows == b.rows && nb.cols == b.cols && nb.limitRows == b.limitRows && nb.limitCols == b.limitCols
        invariant Spawning.ComputedBefore(b, rule, kind, nb, i, j)
      {
        var v := StepCell(grid, b, next, nb, i, j);
        if v.Failure? {
          Spawning.ComputedBeforeFails(b, rule, kind, nb, i, j);
          return Some(v.error);
        }
        Spawning.ComputedBeforeNext(b, rule, kind, nb, i, j, v.value);
        nb := nb.Set(i, j, v.value);
        j := j + 1;
      }
      Spawning.ComputedBeforeRow(b, rule, kind, nb, i);
      i := i + 1;
    }
    Spawning.ComputedBeforeEnd(b, rule, kind, nb);
    r := None;
  }

  /** Gol: a grid and the number of generations it has been stepped. */
  class Gol {
    const grid: Grid
    var generation: int

    predicate Valid()
      reads this, grid
    {
      grid.Valid()
    }

    /** The grid as a limited board. */
    function View(): Board
      reads this, grid, grid.cells
      requires Valid()
    {
      grid.View()
    }

    /** NewGol: an all-DEAD grid at generation 0. */
    constructor (rows: int, cols: int)
      requires 0 <= rows && 0 <= cols
      ensures Valid() && fresh(grid) && fresh(grid.cells)
      ensures View() == DeadBoard(rows, cols) && generation == 0
    {
      grid := new Grid(rows, cols);
      generation := 0;
    }

    /** new(Gol) with its two fields set, as Clone builds it. */
    constructor Of(grid: Grid, generation: int)
      ensures this.grid == grid && this.generation == generation
    {
      this.grid := grid;
      this.generation := generation;
    }

    /** Clone: the same generation over a clone of the grid. */
    method Clone() returns (c: Gol)
      requires Valid()
      ensures fresh(c) && fresh(c.grid) && fresh(c.grid.cells) && c.Valid()
      ensures c.generation == generation && c.View() == View()
    {
      var gr := grid.Clone();
      c := new Gol.Of(gr, generation);
    }

    /**
     * NextGeneration: a clone whose every cell takes the 23/3 Moore rule's value, at the
     * next generation; the receiver is not changed. An invalid status panics at the first
     * such cell. The ghost b names the receiver's grid.
     */
    method NextGeneration(ghost b: Board) returns (r: Result<Gol, Life.StepError>)
      requires Valid() && b == View()
      ensures r.Success? <==> Life.AllStatuses(b)
      ensures r.Success? ==> fresh(r.value) && fresh(r.value.grid) && fresh(r.value.grid.cells) && r.value.Valid()
      ensures r.Success? ==> r.value.View() == Life.Step(b, Rules.Conway(), Moore)
      ensures r.Success? ==> r.value.generation == generation + 1
      ensures r.Failure? ==> Spawning.FirstInvalid(b, r.error.i, r.error.j)
    {
      var nextG := Clone();
      var failed := StepCells(grid, b, nextG.grid);
      if failed.Some? {
        return Failure(failed.value);
      }
      nextG.generation := nextG.generation + 1;
      r := Success(nextG);
    }

    /**
     * Equals as written: the grid's equals first, which ignores the column counts and
     * panics (None) when the argument's cells run out, then the generations. On grids of
     * the same extents it is equality of the boards and the generations.
     */
    method Equals(other: Gol) returns (r: Option<bool>)
      requires Valid() && other.Valid()
      ensures r.None? <==> EqualsOutcome(grid.rows, grid.cells[..], other.grid.rows, other.grid.cells[..]).None?
      ensures r.Some? ==>
        (r.value <==> EqualsOutcome(grid.rows, grid.cells[..], other.grid.rows, other.grid.cells[..]) == Some(true) &&
                      generation == other.generation)
      ensures grid.rows == other.grid.rows && grid.cols == other.grid.cols ==>
        r == Some(View() == other.View() && generation == other.generation)
    {
      var o := grid.EqualsAsWritten(other.grid);
      if grid.rows == other.grid.rows && grid.cols == other.grid.cols {
        EqualsOutcomeSameExtents(grid.rows, grid.cols, grid.cells[..], other.grid.cells[..]);
      }
      if o.None? {
        return None;
      }
      r := Some(o.value && generation == other.generation);
    }

    /** GridEquals as written: the grid's equals alone, whatever the generations. */
    method GridEquals(other: Gol) returns (r: Option<bool>)
      requires Valid() && other.Valid()
      ensures r == EqualsOutcome(grid.rows, grid.cells[..], other.grid.rows, other.grid.cells[..])
      ensures grid.rows == other.grid.rows && grid.cols == other.grid.cols ==> r == Some(View() == other.View())
    {
      r := grid.EqualsAsWritten(other.grid);
      if grid.rows == other.grid.rows && grid.cols == other.grid.cols {
        EqualsOutcomeSameExtents(grid.rows, grid.cols, grid.cells[..], other.grid.cells[..]);
      }
    }

    /** Equals over the corrected grid equality: the same board and the same generation. */
    method EqualsIntended(other: Gol) returns (eq: bool)
      requires Valid() && other.Valid()
      ensures eq <==> View() == other.View() && generation == other.generation
    {
      eq := grid.Equals(other.grid);
      eq := eq && generation == other.generation;
    }

    /** GridEquals over the corrected grid equality: the boards alone. */
    method GridEqualsIntended(other: Gol) returns (eq: bool)
      requires Valid() && other.Valid()
      ensures eq <==> View() == other.View()
    {
      eq := grid.Equals(other.grid);
    }
  }
}
