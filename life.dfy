/**
 * The rule evaluator and the meaning of one generation step (pkg/gol/spawning.go,
 * nextCell and serialNextGeneration), stated on Board values. The imperative stepper in
 * spawning.dfy is proved to compute exactly Step.
 */
module Life {
  import opened Wrappers
  import opened Statuses
  import opened Topology
  import opened Neighborhood
  import opened Rules

  /** nextCell's panic: the cell holds a value that is neither ALIVE nor DEAD. */
  datatype StepError = InvalidStatus(i: int, j: int)

  /** How many neighbours of (i, j) are alive, for the given neighbourhood. */
  function AliveCount(b: Board, kind: Kind, i: int, j: int): (n: nat)
    requires b.Valid() && b.Readable()
    ensures n <= 8 && (kind == VonNeumann ==> n <= 4)
  {
    Count(Neighbors(kind, b, i, j), ALIVE)
  }

  /** Counting the values a neighbourhood function returned is counting the neighbours. */
  lemma AliveCountOf(b: Board, kind: Kind, i: int, j: int, neighbors: seq<int>)
    requires b.Valid() && b.Readable() && neighbors == Neighbors(kind, b, i, j)
    ensures Count(neighbors, ALIVE) == AliveCount(b, kind, i, j)
  {
  }

  /**
   * nextCell: a live cell survives iff its live-neighbour count is a survival count, a
   * dead cell comes to life iff the count is a birth count, any other status panics.
   */
  function NextCell(b: Board, rule: Rule, kind: Kind, i: int, j: int): (r: Result<int, StepError>)
    requires b.Valid() && b.Readable()
    ensures r.Success? <==> IsStatus(b.Get(i, j))
    ensures r.Failure? ==> r.error == InvalidStatus(i, j)
    ensures r.Success? ==> IsStatus(r.value)
    ensures b.Get(i, j) == ALIVE ==> (r == Success(ALIVE) <==> AliveCount(b, kind, i, j) in rule.survival)
    ensures b.Get(i, j) == DEAD ==> (r == Success(ALIVE) <==> AliveCount(b, kind, i, j) in rule.birth)
  {
    var count := AliveCount(b, kind, i, j);
    var status := b.Get(i, j);
    if status == ALIVE then
      if count in rule.survival then Success(ALIVE) else Success(DEAD)
    else if status == DEAD then
      if count in rule.birth then Success(ALIVE) else Success(DEAD)
    else
      Failure(InvalidStatus(i, j))
  }

  /** Every stored cell is ALIVE or DEAD: the condition under which a step cannot panic. */
  predicate AllStatuses(b: Board)
    requires b.Valid()
  {
    forall r, c | 0 <= r < b.rows && 0 <= c < b.cols :: IsStatus(b.cells[r][c])
  }

  /** The next state of an in-range cell of a board whose cells are all statuses. */
  function NextValue(b: Board, rule: Rule, kind: Kind, i: int, j: int): (v: int)
    requires b.Valid() && AllStatuses(b) && b.InRange(i, j)
    ensures NextCell(b, rule, kind, i, j) == Success(v)
  {
    GetSemantics(b, i, j);
    NextCell(b, rule, kind, i, j).value
  }

  /**
   * One generation: every in-range cell takes nextCell's value; the extents and the
   * topology stay as they are.
   */
  function Step(b: Board, rule: Rule, kind: Kind): (n: Board)
    requires b.Valid() && AllStatuses(b)
    ensures n.Valid() && AllStatuses(n)
    ensures n.rows == b.rows && n.cols == b.cols
    ensures n.limitRows == b.limitRows && n.limitCols == b.limitCols
  {
    b.(cells := seq(b.rows, i requires 0 <= i < b.rows =>
                  seq(b.cols, j requires 0 <= j < b.cols => NextValue(b, rule, kind, i, j))))
  }

  /** Each in-range cell of the next generation is nextCell of the current one. */
  lemma StepCells(b: Board, rule: Rule, kind: Kind)
    requires b.Valid() && AllStatuses(b)
    ensures forall i, j | b.InRange(i, j) :: NextCell(b, rule, kind, i, j) == Success(Step(b, rule, kind).cells[i][j])
  {
  }

  /** n generations in a row; zero generations leave any board as it is. */
  function StepN(b: Board, rule: Rule, kind: Kind, n: nat): (r: Board)
    requires b.Valid() && (n > 0 ==> AllStatuses(b))
    ensures r.Valid() && (n > 0 || AllStatuses(b) ==> AllStatuses(r))
    ensures r.rows == b.rows && r.cols == b.cols
    ensures r.limitRows == b.limitRows && r.limitCols == b.limitCols
    decreases n
  {
    if n == 0 then b else StepN(Step(b, rule, kind), rule, kind, n - 1)
  }

  /** Stepping m generations and then n more is stepping m + n generations. */
  lemma {:induction false} StepNAdd(b: Board, rule: Rule, kind: Kind, m: nat, n: nat)
    requires b.Valid() && AllStatuses(b)
    ensures StepN(StepN(b, rule, kind, m), rule, kind, n) == StepN(b, rule, kind, m + n)
    decreases m
  {
    if m > 0 {
      StepNAdd(Step(b, rule, kind), rule, kind, m - 1, n);
    }
  }

  /** The last step of n + 1 generations is one step after n generations. */
  lemma StepNLast(b: Board, rule: Rule, kind: Kind, n: nat)
    requires b.Valid() && AllStatuses(b)
    ensures StepN(b, rule, kind, n + 1) == Step(StepN(b, rule, kind, n), rule, kind)
  {
    StepNAdd(b, rule, kind, n, 1);
  }

  /** A board that one step leaves unchanged stays unchanged for any number of steps. */
  lemma {:induction false} FixedPointForever(b: Board, rule: Rule, kind: Kind, n: nat)
    requires b.Valid() && AllStatuses(b)
    requires Step(b, rule, kind) == b
    ensures StepN(b, rule, kind, n) == b
  {
    if n > 0 {
      FixedPointForever(b, rule, kind, n - 1);
    }
  }

  /** A board two steps bring back repeats with period two. */
  lemma {:induction false} PeriodTwo(b: Board, rule: Rule, kind: Kind, n: nat)
    requires b.Valid() && AllStatuses(b)
    requires StepN(b, rule, kind, 2) == b
    ensures StepN(b, rule, kind, 2 * n) == b
    ensures StepN(b, rule, kind, 2 * n + 1) == Step(b, rule, kind)
  {
    if n > 0 {
      PeriodTwo(b, rule, kind, n - 1);
      StepNAdd(b, rule, kind, 2, 2 * (n - 1));
      StepNAdd(b, rule, kind, 2, 2 * (n - 1) + 1);
    }
  }

  /** One change of a ChangeCells list: set cell (i, j) to status. */
  datatype Change = Change(i: int, j: int, status: int)

  /** Every change of the list can be written (Grid.Set would not panic on it). */
  predicate Writable(b: Board, changes: seq<Change>)
  {
    forall k | 0 <= k < |changes| :: b.CanWrite(changes[k].i, changes[k].j)
  }

  /** serialChangeCells on the abstract value: the writes applied in list order. */
  function ApplyChanges(b: Board, changes: seq<Change>): (r: Board)
    requires b.Valid() && Writable(b, changes)
    ensures r.Valid() && r.rows == b.rows && r.cols == b.cols
    ensures r.limitRows == b.limitRows && r.limitCols == b.limitCols
    decreases |changes|
  {
    if changes == [] then b
    else ApplyChanges(b.Set(changes[0].i, changes[0].j, changes[0].status), changes[1..])
  }

  /** Whether a change lands on the stored cell (r, c) once its indices are normalised. */
  predicate Hits(b: Board, ch: Change, r: int, c: int)
    requires b.CanWrite(ch.i, ch.j)
  {
    r == Normalize(b.limitRows, ch.i, b.rows) && c == Normalize(b.limitCols, ch.j, b.cols)
  }

  /** The status the last change landing on (r, c) writes, if any change does. */
  function LastWrite(b: Board, changes: seq<Change>, r: int, c: int): Option<int>
    requires Writable(b, changes)
    decreases |changes|
  {
    if changes == [] then None
    else if Hits(b, changes[|changes| - 1], r, c) then Some(changes[|changes| - 1].status)
    else LastWrite(b, changes[..|changes| - 1], r, c)
  }

  /** Applying the writes leaves each cell at the last status written to it, or as it was. */
  lemma {:induction false} ApplyChangesLastWins(b: Board, changes: seq<Change>, r: int, c: int)
    requires b.Valid() && Writable(b, changes) && b.InRange(r, c)
    ensures ApplyChanges(b, changes).cells[r][c] ==
      match LastWrite(b, changes, r, c)
      case Some(v) => v
      case None => b.cells[r][c]
    decreases |changes|
  {
    if changes != [] {
      var last := changes[|changes| - 1];
      var init := changes[..|changes| - 1];
      ApplyChangesSnoc(b, init, last);
      assert changes == init + [last];
      var mid := ApplyChanges(b, init);
      SetThenGet(mid, last.i, last.j, last.status);
      ApplyChangesLastWins(b, init, r, c);
    }
  }

  /** Applying a list with one more change at the end is one more Set. */
  lemma {:induction false} ApplyChangesSnoc(b: Board, changes: seq<Change>, ch: Change)
    requires b.Valid() && Writable(b, changes + [ch])
    ensures Writable(b, changes)
    ensures ApplyChanges(b, changes).CanWrite(ch.i, ch.j)
    ensures ApplyChanges(b, changes + [ch]) == ApplyChanges(b, changes).Set(ch.i, ch.j, ch.status)
    decreases |changes|
  {
    assert forall k | 0 <= k < |changes| :: (changes + [ch])[k] == changes[k];
    assert (changes + [ch])[|changes|] == ch;
    if changes != [] {
      var b1 := b.Set(changes[0].i, changes[0].j, changes[0].status);
      assert (changes + [ch])[1..] == changes[1..] + [ch];
      ApplyChangesSnoc(b1, changes[1..], ch);
    }
  }
}
