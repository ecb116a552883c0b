/**
 * Computing generations (pkg/gol/spawning.go). Every stepper writes nextCell's value for
 * each cell of a copy with an empty grid; the serial one in row-major order, the
 * parallel ones in whatever order their goroutines run, which is modelled by taking the
 * cells in an unspecified order. All of them are proved to compute Life.Step.
 */
module Spawning {
  import opened Wrappers
  import opened Statuses
  import opened Topology
  import opened Neighborhood
  import opened Ints
  import Rules
  import Life
  import opened Automaton

  /** The attributes a new generation takes over from the automaton it was computed from. */
  predicate Inherits(g: Gol, n: Gol)
    reads g, n
  {
    n.name == g.name && n.description == g.description && n.rules == g.rules &&
    n.neighborhoodType == g.neighborhoodType && n.neighborhood == g.neighborhood &&
    n.TheRule() == g.TheRule()
  }

  /**
   * n is the generation after g, whose grid holds b: one Step of b under g's rule, the
   * attributes taken over and the generation counter one more.
   */
  predicate IsNext(g: Gol, b: Board, n: Gol)
    reads g, n, n.grid, n.grid.cells.Footprint()
    requires b.Valid() && Life.AllStatuses(b)
  {
    n.Valid() && Inherits(g, n) && n.generation == g.generation + 1 &&
    n.View() == Life.Step(b, g.TheRule(), g.neighborhood)
  }

  /** (i, j) is a stored cell holding neither ALIVE nor DEAD. */
  predicate InvalidAt(b: Board, i: int, j: int)
    requires b.Valid()
  {
    b.InRange(i, j) && !IsStatus(b.cells[i][j])
  }

  /** (i, j) is the first such cell in row-major order. */
  predicate FirstInvalid(b: Board, i: int, j: int)
    requires b.Valid()
  {
    InvalidAt(b, i, j) &&
    forall r, c | 0 <= r < b.rows && 0 <= c < b.cols && (r < i || (r == i && c < j)) :: IsStatus(b.cells[r][c])
  }

  /**
   * nextCell: the rule evaluator, exactly Life.NextCell of the automaton's state. The
   * ghost b names that state, so the contract does not depend on the heap after the
   * counting loop.
   */
  method NextCell(g: Gol, ghost b: Board, i: int, j: int) returns (r: Result<int, Life.StepError>)
    requires g.Valid() && b == g.View() && b.Readable()
    ensures r == Life.NextCell(b, g.TheRule(), g.neighborhood, i, j)
  {
    var neighbors := g.NeighborValues(i, j);
    var status := g.Get(i, j);
    Life.AliveCountOf(b, g.neighborhood, i, j, neighbors);
    var count := NeighborsCount(neighbors, ALIVE);
    if status == ALIVE {
      r := Success(if count in g.survival then ALIVE else DEAD);
    } else if status == DEAD {
      r := Success(if count in g.birth then ALIVE else DEAD);
    } else {
      r := Failure(Life.InvalidStatus(i, j));
    }
  }

  /**
   * copyWithEmptyGrid: a new automaton with the same attributes over an all-DEAD grid of
   * the same shape and topology.
   */
  method CopyWithEmptyGrid(g: Gol) returns (n: Gol)
    requires g.Valid() && g.RulesMatch()
    ensures fresh(n) && fresh(n.grid) && fresh(n.grid.cells.Footprint()) && n.Valid() && n.RulesMatch()
    ensures Inherits(g, n) && n.generation == g.generation && n.processes == CPUS
    ensures n.View() == g.View().Fill(DEAD)
  {
    var empty := g.grid.CloneEmpty();
    n := new Gol.InitWithGrid(g.name, g.description, g.generation, g.rules, g.neighborhoodType, empty);
  }

  /** Cell (r, c) of nb holds nextCell's value of the stored cell (r, c) of b, which is a status. */
  ghost predicate Computed(b: Board, rule: Rules.Rule, kind: Kind, nb: Board, r: int, c: int)
    requires b.Valid() && nb.Valid() && nb.rows == b.rows && nb.cols == b.cols
    requires b.InRange(r, c)
  {
    IsStatus(b.cells[r][c]) && Life.NextCell(b, rule, kind, r, c) == Success(nb.cells[r][c])
  }

  /** Writing the value of (i, j) makes that cell computed and keeps every other computed cell. */
  lemma ComputedAfterWrite(b: Board, rule: Rules.Rule, kind: Kind, nb: Board, i: int, j: int, v: int)
    requires b.Valid() && nb.Valid() && nb.rows == b.rows && nb.cols == b.cols
    requires b.InRange(i, j) && Life.NextCell(b, rule, kind, i, j) == Success(v)
    ensures nb.CanWrite(i, j)
    ensures Computed(b, rule, kind, nb.Set(i, j, v), i, j)
    ensures forall r, c | b.InRange(r, c) && (r, c) != (i, j) ::
      Computed(b, rule, kind, nb.Set(i, j, v), r, c) == Computed(b, rule, kind, nb, r, c)
  {
    WrapInRange(i, b.rows);
    WrapInRange(j, b.cols);
    SetThenGet(nb, i, j, v);
  }

  /** Once every stored cell is computed, nb is the next generation of b. */
  lemma AllComputed(b: Board, rule: Rules.Rule, kind: Kind, nb: Board)
    requires b.Valid() && nb.Valid() && nb.rows == b.rows && nb.cols == b.cols
    requires nb.limitRows == b.limitRows && nb.limitCols == b.limitCols
    requires forall r, c | b.InRange(r, c) :: Computed(b, rule, kind, nb, r, c)
    ensures Life.AllStatuses(b) && nb == Life.Step(b, rule, kind)
  {
    forall r, c | b.InRange(r, c)
      ensures IsStatus(b.cells[r][c])
    {
      assert Computed(b, rule, kind, nb, r, c);
    }
    Life.StepCells(b, rule, kind);
    var step := Life.Step(b, rule, kind);
    forall r, c | b.InRange(r, c)
      ensures nb.cells[r][c] == step.cells[r][c]
    {
      assert Computed(b, rule, kind, nb, r, c);
    }
    BoardExt(nb, step);
  }

  /** Every stored cell before (i, j) in row-major order is computed. */
  ghost predicate ComputedBefore(b: Board, rule: Rules.Rule, kind: Kind, nb: Board, i: int, j: int)
    requires b.Valid() && nb.Valid() && nb.rows == b.rows && nb.cols == b.cols
  {
    forall r, c | b.InRange(r, c) && (r < i || (r == i && c < j)) :: Computed(b, rule, kind, nb, r, c)
  }

  /** The serial loop's step: computing (i, j) moves the frontier one cell on. */
  lemma ComputedBeforeNext(b: Board, rule: Rules.Rule, kind: Kind, nb: Board, i: int, j: int, v: int)
    requires b.Valid() && nb.Valid() && nb.rows == b.rows && nb.cols == b.cols
    requires b.InRange(i, j) && Life.NextCell(b, rule, kind, i, j) == Success(v)
    requires ComputedBefore(b, rule, kind, nb, i, j)
    ensures nb.CanWrite(i, j) && ComputedBefore(b, rule, kind, nb.Set(i, j, v), i, j + 1)
  {
    ComputedAfterWrite(b, rule, kind, nb, i, j, v);
  }

  /** The end of a row is the start of the next one. */
  lemma ComputedBeforeRow(b: Board, rule: Rules.Rule, kind: Kind, nb: Board, i: int)
    requires b.Valid() && nb.Valid() && nb.rows == b.rows && nb.cols == b.cols
    requires ComputedBefore(b, rule, kind, nb, i, b.cols)
    ensures ComputedBefore(b, rule, kind, nb, i + 1, 0)
  {
  }

  /** After the last row the serial loop has computed the next generation. */
  lemma ComputedBeforeEnd(b: Board, rule: Rules.Rule, kind: Kind, nb: Board)
    requires b.Valid() && nb.Valid() && nb.rows == b.rows && nb.cols == b.cols
    requires nb.limitRows == b.limitRows && nb.limitCols == b.limitCols
    requires ComputedBefore(b, rule, kind, nb, b.rows, 0)
    ensures Life.AllStatuses(b) && nb == Life.Step(b, rule, kind)
  {
    AllComputed(b, rule, kind, nb);
  }

  /** A failing nextCell at the serial frontier is the first invalid cell. */
  lemma ComputedBeforeFails(b: Board, rule: Rules.Rule, kind: Kind, nb: Board, i: int, j: int)
    requires b.Valid() && nb.Valid() && nb.rows == b.rows && nb.cols == b.cols
    requires b.InRange(i, j) && Life.NextCell(b, rule, kind, i, j).Failure?
    requires ComputedBefore(b, rule, kind, nb, i, j)
    ensures FirstInvalid(b, i, j) && !Life.AllStatuses(b)
  {
    GetSemantics(b, i, j);
    forall r, c | 0 <= r < b.rows && 0 <= c < b.cols && (r < i || (r == i && c < j))
      ensures IsStatus(b.cells[r][c])
    {
      assert Computed(b, rule, kind, nb, r, c);
    }
  }

  /** Every stored cell outside `pending` is computed. */
  ghost predicate ComputedOutside(b: Board, rule: Rules.Rule, kind: Kind, nb: Board, pending: set<(int, int)>)
    requires b.Valid() && nb.Valid() && nb.rows == b.rows && nb.cols == b.cols
  {
    forall r, c | b.InRange(r, c) && (r, c) !in pending :: Computed(b, rule, kind, nb, r, c)
  }

  /** The parallel loop's step: running the job of p takes p off the pending set. */
  lemma ComputedOutsideNext(b: Board, rule: Rules.Rule, kind: Kind, nb: Board, pending: set<(int, int)>,
                            p: (int, int), v: int)
    requires b.Valid() && nb.Valid() && nb.rows == b.rows && nb.cols == b.cols
    requires b.InRange(p.0, p.1) && Life.NextCell(b, rule, kind, p.0, p.1) == Success(v)
    requires ComputedOutside(b, rule, kind, nb, pending)
    ensures nb.CanWrite(p.0, p.1) && ComputedOutside(b, rule, kind, nb.Set(p.0, p.1, v), pending - {p})
  {
    ComputedAfterWrite(b, rule, kind, nb, p.0, p.1, v);
  }

  /** The jobs of a rows x cols grid: one per cell. */
  function Cells(rows: int, cols: int): (s: set<(int, int)>)
    ensures forall p | p in s :: 0 <= p.0 < rows && 0 <= p.1 < cols
    ensures forall i, j | 0 <= i < rows && 0 <= j < cols :: (i, j) in s
  {
    set i, j | 0 <= i < rows && 0 <= j < cols :: (i, j)
  }

  /** Before any job has run, every cell is pending. */
  lemma ComputedOutsideStart(b: Board, rule: Rules.Rule, kind: Kind, nb: Board)
    requires b.Valid() && nb.Valid() && nb.rows == b.rows && nb.cols == b.cols
    ensures ComputedOutside(b, rule, kind, nb, Cells(b.rows, b.cols))
  {
  }

  /** With nothing pending the parallel loop has computed the next generation. */
  lemma ComputedOutsideEnd(b: Board, rule: Rules.Rule, kind: Kind, nb: Board)
    requires b.Valid() && nb.Valid() && nb.rows == b.rows && nb.cols == b.cols
    requires nb.limitRows == b.limitRows && nb.limitCols == b.limitCols
    requires ComputedOutside(b, rule, kind, nb, {})
    ensures Life.AllStatuses(b) && nb == Life.Step(b, rule, kind)
  {
    AllComputed(b, rule, kind, nb);
  }

  /** A failing job names a stored cell that is not a status. */
  lemma JobFails(b: Board, rule: Rules.Rule, kind: Kind, i: int, j: int)
    requires b.Valid() && b.InRange(i, j) && Life.NextCell(b, rule, kind, i, j).Failure?
    ensures InvalidAt(b, i, j) && !Life.AllStatuses(b)
  {
    GetSemantics(b, i, j);
  }

  /**
   * One job of the parallel steppers, and one iteration of the serial one: nextCell of
   * (i, j), then Set of its value on the new generation's grid. g's grid is not touched.
   */
  method Job(g: Gol, ghost b: Board, ghost rule: Rules.Rule, ghost kind: Kind, next: Gol, ghost nb: Board, i: int, j: int)
      returns (r: Result<int, Life.StepError>)
    requires g.Valid() && b == g.View() && b.InRange(i, j) && rule == g.TheRule() && kind == g.neighborhood
    requires next.Valid() && next.View() == nb && nb.rows == b.rows && nb.cols == b.cols
    requires nb.limitRows == b.limitRows && nb.limitCols == b.limitCols
    requires g.grid.cells.Footprint() !! next.grid.cells.Footprint()
    requires allocated(next.grid) && forall o | o in next.grid.cells.Footprint() :: allocated(o)
    modifies next.grid.cells.Footprint()
    ensures r == Life.NextCell(b, rule, kind, i, j)
    ensures next.Valid() && next.View() == if r.Success? then nb.Set(i, j, r.value) else nb
  {
    r := NextCell(g, b, i, j);
    if r.Success? {
      GetSemantics(nb, i, j);
      next.Set(i, j, r.value);
    }
  }

  /**
   * The two loops of serialNextGeneration: every cell in row-major order gets its job.
   * Either every cell was a status and next now holds the next generation, or the first
   * invalid cell stopped the loops (nextCell's panic).
   */
  method SerialCells(g: Gol, ghost b: Board, ghost rule: Rules.Rule, ghost kind: Kind, next: Gol) returns (r: Option<Life.StepError>)
    requires g.Valid() && b == g.View() && rule == g.TheRule() && kind == g.neighborhood && next.Valid()
    requires next.View().rows == b.rows && next.View().cols == b.cols
    requires next.View().limitRows == b.limitRows && next.View().limitCols == b.limitCols
    requires g.grid.cells.Footprint() !! next.grid.cells.Footprint()
    requires allocated(next.grid) && forall o | o in next.grid.cells.Footprint() :: allocated(o)
    modifies next.grid.cells.Footprint()
    ensures next.Valid()
    ensures r.None? <==> Life.AllStatuses(b)
    ensures r.None? ==> next.View() == Life.Step(b, rule, kind)
    ensures r.Some? ==> FirstInvalid(b, r.value.i, r.value.j)
  {
    var rows, cols := g.Rows(), g.Cols();
    ghost var nb := next.View();
    var i := 0;
    while i < rows
      invariant 0 <= i <= rows
      invariant next.Valid() && next.View() == nb
      invariant nb.rows == rows && nb.cols == cols && nb.limitRows == b.limitRows && nb.limitCols == b.limitCols
      invariant ComputedBefore(b, rule, kind, nb, i, 0)
    {
      var j := 0;
      while j < cols
        invariant 0 <= j <= cols
        invariant next.Valid() && next.View() == nb
        invariant nb.rows == rows && nb.cols == cols && nb.limitRows == b.limitRows && nb.limitCols == b.limitCols
        invariant ComputedBefore(b, rule, kind, nb, i, j)
      {
        var v := Job(g, b, rule, kind, next, nb, i, j);
        if v.Failure? {
          ComputedBeforeFails(b, rule, kind, nb, i, j);
          return Some(v.error);
        }
        ComputedBeforeNext(b, rule, kind, nb, i, j, v.value);
        nb := nb.Set(i, j, v.value);
        j := j + 1;
      }
      ComputedBeforeRow(b, rule, kind, nb, i);
      i := i + 1;
    }
    ComputedBeforeEnd(b, rule, kind, nb);
    r := None;
  }

  /**
   * serialNextGeneration: nextCell of every cell in row-major order, written into an
   * empty copy whose generation is then one more. An invalid status is the panic,
   * raised at the first such cell. The ghost b names g's grid.
   */
  method SerialNextGeneration(g: Gol, ghost b: Board) returns (r: Result<Gol, Life.StepError>)
    requires g.Valid() && g.RulesMatch() && b == g.View()
    ensures r.Success? <==> Life.AllStatuses(b)
    ensures r.Success? ==> fresh(r.value) && fresh(r.value.grid) && fresh(r.value.grid.cells.Footprint())
    ensures r.Success? ==> IsNext(g, b, r.value) && r.value.processes == CPUS
    ensures r.Failure? ==> FirstInvalid(b, r.error.i, r.error.j)
  {
    var next := CopyWithEmptyGrid(g);
    assert next !in next.grid.cells.Footprint() && next as object != next.grid;
    var failed := SerialCells(g, b, g.TheRule(), g.neighborhood, next);
    if failed.Some? {
      return Failure(failed.value);
    }
    assert next !in next.grid.cells.Footprint() && next as object != next.grid;
    next.generation := next.generation + 1;
    r := Success(next);
  }

  /**
   * The jobs of the parallel steppers: one per cell, taken in an unspecified order (the
   * order in which goroutines happen to run). Either all ran and next holds the next
   * generation, or a job met an invalid cell and panicked.
   */
  method PooledCells(g: Gol, ghost b: Board, ghost rule: Rules.Rule, ghost kind: Kind, next: Gol) returns (r: Option<Life.StepError>)
    requires g.Valid() && b == g.View() && rule == g.TheRule() && kind == g.neighborhood && next.Valid()
    requires next.View().rows == b.rows && next.View().cols == b.cols
    requires next.View().limitRows == b.limitRows && next.View().limitCols == b.limitCols
    requires g.grid.cells.Footprint() !! next.grid.cells.Footprint()
    requires allocated(next.grid) && forall o | o in next.grid.cells.Footprint() :: allocated(o)
    modifies next.grid.cells.Footprint()
    ensures next.Valid()
    ensures r.None? <==> Life.AllStatuses(b)
    ensures r.None? ==> next.View() == Life.Step(b, rule, kind)
    ensures r.Some? ==> InvalidAt(b, r.value.i, r.value.j)
  {
    var rows, cols := g.Rows(), g.Cols();
    ghost var nb := next.View();
    var jobs := Cells(rows, cols);
    ComputedOutsideStart(b, rule, kind, nb);
    while jobs != {}
      invariant jobs <= Cells(rows, cols)
      invariant next.Valid() && next.View() == nb
      invariant nb.rows == rows && nb.cols == cols && nb.limitRows == b.limitRows && nb.limitCols == b.limitCols
      invariant ComputedOutside(b, rule, kind, nb, jobs)
      decreases |jobs|
    {
      var p :| p in jobs;
      var v := Job(g, b, rule, kind, next, nb, p.0, p.1);
      if v.Failure? {
        JobFails(b, rule, kind, p.0, p.1);
        return Some(v.error);
      }
      ComputedOutsideNext(b, rule, kind, nb, jobs, p, v.value);
      nb := nb.Set(p.0, p.1, v.value);
      jobs := jobs - {p};
    }
    ComputedOutsideEnd(b, rule, kind, nb);
    r := None;
  }

  /**
   * explosiveParallelNextGeneration and parallelNextGeneration: the jobs of every cell,
   * run by a goroutine each or by the pool, then generation + 1. A panic in any job ends
   * the computation, so the reported cell is some invalid cell, not necessarily the first.
   */
  method ParallelNextGeneration(g: Gol, ghost b: Board) returns (r: Result<Gol, Life.StepError>)
    requires g.Valid() && g.RulesMatch() && b == g.View()
    ensures r.Success? <==> Life.AllStatuses(b)
    ensures r.Success? ==> fresh(r.value) && fresh(r.value.grid) && fresh(r.value.grid.cells.Footprint())
    ensures r.Success? ==> IsNext(g, b, r.value) && r.value.processes == CPUS
    ensures r.Failure? ==> InvalidAt(b, r.error.i, r.error.j)
  {
    var next := CopyWithEmptyGrid(g);
    assert next !in next.grid.cells.Footprint() && next as object != next.grid;
    var failed := PooledCells(g, b, g.TheRule(), g.neighborhood, next);
    if failed.Some? {
      return Failure(failed.value);
    }
    assert next !in next.grid.cells.Footprint() && next as object != next.grid;
    next.generation := next.generation + 1;
    r := Success(next);
  }

  /** The stepper nextGenerationFunc hands out. */
  datatype Strategy = Serial | Explosive | Pool

  /**
   * nextGenerationFunc: serial when processes is SERIAL; otherwise one goroutine per
   * cell when the thread pool size is ExplosiveThreadPoolSize, else the pool.
   */
  function NextGenerationFunc(g: Gol): (s: Strategy)
    reads g
    ensures s == Serial <==> g.processes == SERIAL
    ensures s == Explosive <==> g.processes != SERIAL && g.threadPoolSize == ExplosiveThreadPoolSize
    ensures s == Pool <==> g.processes != SERIAL && g.threadPoolSize != ExplosiveThreadPoolSize
  {
    if g.processes == SERIAL then Serial
    else if g.threadPoolSize == ExplosiveThreadPoolSize then Explosive
    else Pool
  }

  /** Running the stepper a strategy names; whichever it is, the result is the next generation. */
  method Advance(s: Strategy, g: Gol, ghost b: Board) returns (r: Result<Gol, Life.StepError>)
    requires g.Valid() && g.RulesMatch() && b == g.View()
    ensures r.Success? <==> Life.AllStatuses(b)
    ensures r.Success? ==> fresh(r.value) && fresh(r.value.grid) && fresh(r.value.grid.cells.Footprint())
    ensures r.Success? ==> IsNext(g, b, r.value) && r.value.processes == CPUS
    ensures r.Failure? ==> InvalidAt(b, r.error.i, r.error.j)
    ensures s == Serial && r.Failure? ==> FirstInvalid(b, r.error.i, r.error.j)
  {
    if s == Serial {
      r := SerialNextGeneration(g, b);
    } else {
      r := ParallelNextGeneration(g, b);
    }
  }

  /** NextGeneration: the next generation, computed by the automaton's strategy; g is not changed. */
  method NextGeneration(g: Gol) returns (r: Result<Gol, Life.StepError>)
    requires g.Valid() && g.RulesMatch()
    ensures r.Success? <==> Life.AllStatuses(g.View())
    ensures r.Success? ==> fresh(r.value) && fresh(r.value.grid) && fresh(r.value.grid.cells.Footprint())
    ensures r.Success? ==> IsNext(g, g.View(), r.value) && r.value.processes == CPUS
    ensures r.Failure? ==> InvalidAt(g.View(), r.error.i, r.error.j)
  {
    r := Advance(NextGenerationFunc(g), g, g.View());
  }

  /**
   * FastForward: a clone stepped `generations` times with the receiver's strategy (no
   * step at all for a count of zero or less). The result is StepN of the clone's grid b,
   * which is the receiver's grid unless it is a dok with a default other than 0, and the
   * receiver is not changed. Only the first step can meet an invalid cell: every later
   * grid holds statuses only. Each step sets processes to CPUS.
   */
  method FastForward(g: Gol, ghost b: Board, generations: int) returns (r: Result<Gol, Life.StepError>)
    requires g.Valid() && g.RulesMatch() && b == g.grid.ClonedView()
    ensures r.Success? <==> generations <= 0 || Life.AllStatuses(b)
    ensures r.Success? ==> fresh(r.value) && r.value.Valid() && r.value.RulesMatch() && Inherits(g, r.value)
    ensures r.Success? ==> r.value.generation == g.generation + MaxInt(generations, 0)
    ensures r.Success? ==> r.value.processes == if generations > 0 then CPUS else g.processes
    ensures r.Success? ==> r.value.View() == Life.StepN(b, g.TheRule(), g.neighborhood, MaxInt(generations, 0))
    ensures r.Failure? ==> InvalidAt(b, r.error.i, r.error.j)
  {
    ghost var rule, kind := g.TheRule(), g.neighborhood;
    var ffg := g.Clone();
    var strategy := NextGenerationFunc(g);
    ghost var cur := b;
    var n := 0;
    while n < generations
      invariant 0 <= n <= MaxInt(generations, 0)
      invariant fresh(ffg) && ffg.Valid() && ffg.RulesMatch() && Inherits(g, ffg) && ffg.generation == g.generation + n
      invariant ffg.processes == if n > 0 then CPUS else g.processes
      invariant n > 0 ==> Life.AllStatuses(b)
      invariant ffg.View() == cur && cur == Life.StepN(b, rule, kind, n)
    {
      var next := Advance(strategy, ffg, cur);
      if next.Failure? {
        return Failure(next.error);
      }
      assert next.value.View() == Life.Step(cur, rule, kind);
      Life.StepNLast(b, rule, kind, n);
      ffg := next.value;
      cur := ffg.View();
      n := n + 1;
    }
    assert n == MaxInt(generations, 0);
    r := Success(ffg);
  }
}
