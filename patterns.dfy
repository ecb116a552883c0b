/**
 * Classic patterns under the 23/3 rule with the Moore neighbourhood: a still life that
 * FastForward keeps for ever and a period-two oscillator (pkg/gol/spawning_test.go).
 */
module Patterns {
  import opened Statuses
  import opened Topology
  import opened Neighborhood
  import opened Rules
  import opened Life
  import EarlyGrid

  /** A 2x2 block in the middle of a limited 4x4 grid. */
  function Block(): (b: Board)
    ensures b.Valid() && AllStatuses(b) && b.rows == 4 && b.cols == 4 && b.limitRows && b.limitCols
    ensures forall i, j | b.InRange(i, j) :: b.cells[i][j] == if (i == 1 || i == 2) && (j == 1 || j == 2) then ALIVE else DEAD
  {
    Board(4, 4, true, true, seq(4, i => seq(4, j => if (i == 1 || i == 2) && (j == 1 || j == 2) then ALIVE else DEAD)))
  }

  /** The horizontal phase of a blinker on a limited 3x3 grid. */
  function BlinkerH(): (b: Board)
    ensures b.Valid() && AllStatuses(b) && b.rows == 3 && b.cols == 3 && b.limitRows && b.limitCols
    ensures forall i, j | b.InRange(i, j) :: b.cells[i][j] == if i == 1 then ALIVE else DEAD
  {
    Board(3, 3, true, true, seq(3, i => seq(3, j => if i == 1 then ALIVE else DEAD)))
  }

  /** The vertical phase of a blinker on a limited 3x3 grid. */
  function BlinkerV(): (b: Board)
    ensures b.Valid() && AllStatuses(b) && b.rows == 3 && b.cols == 3 && b.limitRows && b.limitCols
    ensures forall i, j | b.InRange(i, j) :: b.cells[i][j] == if j == 1 then ALIVE else DEAD
  {
    Board(3, 3, true, true, seq(3, i => seq(3, j => if j == 1 then ALIVE else DEAD)))
  }

  /** Under Conway's rule a cell's next status depends only on its status and its count. */
  lemma ConwayNext(b: Board, i: int, j: int, alive: bool, n: nat)
    requires b.Valid() && AllStatuses(b) && b.InRange(i, j)
    requires b.cells[i][j] == (if alive then ALIVE else DEAD)
    requires AliveCount(b, Moore, i, j) == n
    ensures NextValue(b, Conway(), Moore, i, j) == if (alive && (n == 2 || n == 3)) || (!alive && n == 3) then ALIVE else DEAD
  {
    GetSemantics(b, i, j);
  }

  /** Counting one more value at the end. */
  lemma CountSnoc(s: seq<int>, y: int, x: int)
    ensures Count(s + [y], x) == Count(s, x) + (if y == x then 1 else 0)
  {
    assert (s + [y])[..|s|] == s;
  }

  /** Count of a literal list of eight values. */
  lemma Count8(a: int, b: int, c: int, d: int, e: int, f: int, g: int, h: int, x: int)
    ensures Count([a, b, c, d, e, f, g, h], x) ==
      (if a == x then 1 else 0) + (if b == x then 1 else 0) + (if c == x then 1 else 0) +
      (if d == x then 1 else 0) + (if e == x then 1 else 0) + (if f == x then 1 else 0) +
      (if g == x then 1 else 0) + (if h == x then 1 else 0)
  {
    assert [a, b, c, d, e, f, g, h] == [a, b, c, d, e, f, g] + [h];
    assert [a, b, c, d, e, f, g] == [a, b, c, d, e, f] + [g];
    assert [a, b, c, d, e, f] == [a, b, c, d, e] + [f];
    assert [a, b, c, d, e] == [a, b, c, d] + [e];
    assert [a, b, c, d] == [a, b, c] + [d];
    assert [a, b, c] == [a, b] + [c];
    assert [a, b] == [a] + [b];
    assert [a] == [] + [a];
    CountSnoc([], a, x);
    CountSnoc([a], b, x);
    CountSnoc([a, b], c, x);
    CountSnoc([a, b, c], d, x);
    CountSnoc([a, b, c, d], e, x);
    CountSnoc([a, b, c, d, e], f, x);
    CountSnoc([a, b, c, d, e, f], g, x);
    CountSnoc([a, b, c, d, e, f, g], h, x);
  }

  /** Conway's outcome for a cell of a pattern board, from its status and live-neighbour count. */
  function ConwayOutcome(status: int, n: nat): int {
    if (status == ALIVE && (n == 2 || n == 3)) || (status != ALIVE && n == 3) then ALIVE else DEAD
  }

  /** The live-neighbour count of (i, j) on a limited board, spelled out cell by cell. */
  function Around(cells: seq<seq<int>>, i: int, j: int): nat {
    AliveAt(cells, i - 1, j - 1) + AliveAt(cells, i - 1, j) + AliveAt(cells, i - 1, j + 1) +
    AliveAt(cells, i, j - 1) + AliveAt(cells, i, j + 1) +
    AliveAt(cells, i + 1, j - 1) + AliveAt(cells, i + 1, j) + AliveAt(cells, i + 1, j + 1)
  }

  /** 1 when (r, c) is a stored live cell, 0 otherwise (including off the grid). */
  function AliveAt(cells: seq<seq<int>>, r: int, c: int): nat {
    if 0 <= r < |cells| && 0 <= c < |cells[r]| && cells[r][c] == ALIVE then 1 else 0
  }

  /** On a limited board the Moore count is the number of live in-range neighbours. */
  lemma AroundIsCount(b: Board, i: int, j: int)
    requires b.Valid() && b.limitRows && b.limitCols
    ensures b.Readable()
    ensures AliveCount(b, Moore, i, j) == Around(b.cells, i, j)
  {
    forall r, c
      ensures b.CanRead(r, c) && b.Get(r, c) == (if b.InRange(r, c) then b.cells[r][c] else VOID)
    {
      GetSemantics(b, r, c);
    }
    Count8(b.Get(i - 1, j - 1), b.Get(i - 1, j), b.Get(i - 1, j + 1), b.Get(i, j - 1),
           b.Get(i, j + 1), b.Get(i + 1, j - 1), b.Get(i + 1, j), b.Get(i + 1, j + 1), ALIVE);
  }

  /** One step of Conway's rule on a limited board, cell by cell. */
  lemma StepCell(b: Board, i: int, j: int)
    requires b.Valid() && AllStatuses(b) && b.limitRows && b.limitCols && b.InRange(i, j)
    ensures Step(b, Conway(), Moore).cells[i][j] == ConwayOutcome(b.cells[i][j], Around(b.cells, i, j))
  {
    StepCells(b, Conway(), Moore);
    AroundIsCount(b, i, j);
    ConwayNext(b, i, j, b.cells[i][j] == ALIVE, Around(b.cells, i, j));
  }

  /** A limited board each of whose cells Conway's rule maps to itself is a fixed point. */
  lemma StepTo(b: Board, n: Board)
    requires b.Valid() && AllStatuses(b) && b.limitRows && b.limitCols
    requires n.Valid() && n.rows == b.rows && n.cols == b.cols && n.limitRows && n.limitCols
    requires forall i, j | b.InRange(i, j) :: ConwayOutcome(b.cells[i][j], Around(b.cells, i, j)) == n.cells[i][j]
    ensures Step(b, Conway(), Moore) == n
  {
    forall i, j | b.InRange(i, j)
      ensures Step(b, Conway(), Moore).cells[i][j] == n.cells[i][j]
    {
      StepCell(b, i, j);
    }
    BoardExt(Step(b, Conway(), Moore), n);
  }

  /** Where Block() is alive, as AliveAt sees it. */
  lemma BlockAlive()
    ensures forall r, c :: AliveAt(Block().cells, r, c) == if (r == 1 || r == 2) && (c == 1 || c == 2) then 1 else 0
  {
    var b := Block();
    forall r, c
      ensures AliveAt(b.cells, r, c) == if (r == 1 || r == 2) && (c == 1 || c == 2) then 1 else 0
    {
      if b.InRange(r, c) {
        assert b.cells[r][c] == if (r == 1 || r == 2) && (c == 1 || c == 2) then ALIVE else DEAD;
      }
    }
  }

  /** Where BlinkerH() is alive, as AliveAt sees it. */
  lemma BlinkerHAlive()
    ensures forall r, c :: AliveAt(BlinkerH().cells, r, c) == if r == 1 && 0 <= c < 3 then 1 else 0
  {
    var b := BlinkerH();
    forall r, c
      ensures AliveAt(b.cells, r, c) == if r == 1 && 0 <= c < 3 then 1 else 0
    {
      if b.InRange(r, c) {
        assert b.cells[r][c] == if r == 1 && 0 <= c < 3 then ALIVE else DEAD;
      }
    }
  }

  /** Where BlinkerV() is alive, as AliveAt sees it. */
  lemma BlinkerVAlive()
    ensures forall r, c :: AliveAt(BlinkerV().cells, r, c) == if c == 1 && 0 <= r < 3 then 1 else 0
  {
    var b := BlinkerV();
    forall r, c
      ensures AliveAt(b.cells, r, c) == if c == 1 && 0 <= r < 3 then 1 else 0
    {
      if b.InRange(r, c) {
        assert b.cells[r][c] == if c == 1 && 0 <= r < 3 then ALIVE else DEAD;
      }
    }
  }

  /** The block is a still life: one generation leaves it as it is. */
  lemma BlockIsStill()
    ensures Step(Block(), Conway(), Moore) == Block()
  {
    var b, n := Block(), Block();
    BlockAlive();
    forall i, j | b.InRange(i, j)
      ensures ConwayOutcome(b.cells[i][j], Around(b.cells, i, j)) == n.cells[i][j]
    {
      assert i == 0 || i == 1 || i == 2 || i == 3;
      assert j == 0 || j == 1 || j == 2 || j == 3;
    }
    StepTo(b, n);
  }

  /** So any number of generations leaves the block in place (FastForward(n) for every n). */
  lemma BlockStaysForever(n: nat)
    ensures StepN(Block(), Conway(), Moore, n) == Block()
  {
    BlockIsStill();
    FixedPointForever(Block(), Conway(), Moore, n);
  }

  /** The horizontal blinker turns vertical. */
  lemma BlinkerTurns()
    ensures Step(BlinkerH(), Conway(), Moore) == BlinkerV()
  {
    var b, n := BlinkerH(), BlinkerV();
    BlinkerHAlive();
    forall i, j | b.InRange(i, j)
      ensures ConwayOutcome(b.cells[i][j], Around(b.cells, i, j)) == n.cells[i][j]
    {
      assert i == 0 || i == 1 || i == 2;
      assert j == 0 || j == 1 || j == 2;
    }
    StepTo(b, n);
  }

  /** The vertical blinker turns horizontal again. */
  lemma BlinkerTurnsBack()
    ensures Step(BlinkerV(), Conway(), Moore) == BlinkerH()
  {
    var b, n := BlinkerV(), BlinkerH();
    BlinkerVAlive();
    forall i, j | b.InRange(i, j)
      ensures ConwayOutcome(b.cells[i][j], Around(b.cells, i, j)) == n.cells[i][j]
    {
      assert i == 0 || i == 1 || i == 2;
      assert j == 0 || j == 1 || j == 2;
    }
    StepTo(b, n);
  }

  /** The blinker is a period-two oscillator: its phases differ and alternate for ever. */
  lemma BlinkerOscillates(n: nat)
    ensures BlinkerH() != BlinkerV()
    ensures StepN(BlinkerH(), Conway(), Moore, 2 * n) == BlinkerH()
    ensures StepN(BlinkerH(), Conway(), Moore, 2 * n + 1) == BlinkerV()
  {
    assert BlinkerH().cells[1][0] != BlinkerV().cells[1][0];
    BlinkerTurns();
    BlinkerTurnsBack();
    assert StepN(BlinkerH(), Conway(), Moore, 2) == BlinkerH() by {
      assert StepN(BlinkerH(), Conway(), Moore, 1) == StepN(BlinkerV(), Conway(), Moore, 0);
    }
    PeriodTwo(BlinkerH(), Conway(), Moore, n);
  }

  /**
   * The two blinker phases as the first revision stores them, one flat row-major slice
   * of 3 x 3 cells; its NextGeneration steps such a grid as Step under Conway's rule.
   */
  lemma FlatBlinkers()
    ensures EarlyGrid.ToBoard(3, 3, [DEAD, DEAD, DEAD, ALIVE, ALIVE, ALIVE, DEAD, DEAD, DEAD]) == BlinkerH()
    ensures EarlyGrid.ToBoard(3, 3, [DEAD, ALIVE, DEAD, DEAD, ALIVE, DEAD, DEAD, ALIVE, DEAD]) == BlinkerV()
  {
    BoardExt(EarlyGrid.ToBoard(3, 3, [DEAD, DEAD, DEAD, ALIVE, ALIVE, ALIVE, DEAD, DEAD, DEAD]), BlinkerH());
    BoardExt(EarlyGrid.ToBoard(3, 3, [DEAD, ALIVE, DEAD, DEAD, ALIVE, DEAD, DEAD, ALIVE, DEAD]), BlinkerV());
  }
}
