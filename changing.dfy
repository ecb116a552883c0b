/**
 * Input between generations (pkg/gol/changing.go): a list of (i, j, status) changes
 * written into a clone of the automaton, one after another on the serial path and by a
 * goroutine each on the parallel one. The serial result is the list applied in order
 * (Life.ApplyChanges); the parallel result is the list applied in some order, which is
 * the same board whenever no two changes land on the same cell.
 */
module Changing {
  import opened Wrappers
  import opened Topology
  import opened Automaton
  import Life

  /** The stored cell a change lands on once its indices are normalised. */
  function Target(b: Board, ch: Life.Change): (t: (int, int))
    requires b.CanWrite(ch.i, ch.j)
    ensures forall r, c :: Life.Hits(b, ch, r, c) <==> (r, c) == t
    ensures b.Valid() ==> b.InRange(t.0, t.1)
  {
    WrapInRange(ch.i, b.rows);
    WrapInRange(ch.j, b.cols);
    (Normalize(b.limitRows, ch.i, b.rows), Normalize(b.limitCols, ch.j, b.cols))
  }

  /** No two changes of the list land on the same stored cell. */
  predicate DistinctTargets(b: Board, changes: seq<Life.Change>)
    requires Life.Writable(b, changes)
  {
    forall k, l | 0 <= k < l < |changes| :: Target(b, changes[k]) != Target(b, changes[l])
  }

  /** The indices of a list of length n. */
  function Indices(n: nat): (s: set<int>)
    ensures forall k :: k in s <==> 0 <= k < n
  {
    if n == 0 then {} else Indices(n - 1) + {n - 1}
  }

  /**
   * Cell (r, c) of nb holds the status of some change among those with index in done
   * that lands on it, or, when none of them does, the value it has in b.
   */
  ghost predicate CellFrom(b: Board, changes: seq<Life.Change>, done: set<int>, nb: Board, r: int, c: int)
    requires b.Valid() && nb.Valid() && nb.rows == b.rows && nb.cols == b.cols && b.InRange(r, c)
    requires Life.Writable(b, changes)
  {
    (exists k | k in done && 0 <= k < |changes| :: Life.Hits(b, changes[k], r, c) && nb.cells[r][c] == changes[k].status) ||
    ((forall k | k in done && 0 <= k < |changes| :: !Life.Hits(b, changes[k], r, c)) && nb.cells[r][c] == b.cells[r][c])
  }

  /** Every cell of nb is as CellFrom describes. */
  ghost predicate AllFrom(b: Board, changes: seq<Life.Change>, done: set<int>, nb: Board)
    requires b.Valid() && nb.Valid() && nb.rows == b.rows && nb.cols == b.cols
    requires Life.Writable(b, changes)
  {
    forall r, c | b.InRange(r, c) :: CellFrom(b, changes, done, nb, r, c)
  }

  /**
   * nb is what the writes of all the changes, run in some order, leave on b: the extents
   * and topology are b's, and every cell holds the status of a change landing on it, or
   * its old value when no change does.
   */
  ghost predicate SomeOrder(b: Board, changes: seq<Life.Change>, nb: Board)
    requires b.Valid() && Life.Writable(b, changes)
  {
    nb.Valid() && nb.rows == b.rows && nb.cols == b.cols &&
    nb.limitRows == b.limitRows && nb.limitCols == b.limitCols &&
    AllFrom(b, changes, Indices(|changes|), nb)
  }

  /** Before any write, every cell is its old value. */
  lemma AllFromStart(b: Board, changes: seq<Life.Change>)
    requires b.Valid() && Life.Writable(b, changes)
    ensures AllFrom(b, changes, {}, b)
  {
  }

  /** One more write, of change k, keeps every cell as CellFrom describes. */
  lemma AllFromNext(b: Board, changes: seq<Life.Change>, done: set<int>, nb: Board, k: int)
    requires b.Valid() && nb.Valid() && nb.rows == b.rows && nb.cols == b.cols
    requires nb.limitRows == b.limitRows && nb.limitCols == b.limitCols
    requires Life.Writable(b, changes) && 0 <= k < |changes|
    requires AllFrom(b, changes, done, nb)
    ensures nb.CanWrite(changes[k].i, changes[k].j)
    ensures AllFrom(b, changes, done + {k}, nb.Set(changes[k].i, changes[k].j, changes[k].status))
  {
    var ch := changes[k];
    var nb' := nb.Set(ch.i, ch.j, ch.status);
    SetThenGet(nb, ch.i, ch.j, ch.status);
    forall r, c | b.InRange(r, c)
      ensures CellFrom(b, changes, done + {k}, nb', r, c)
    {
      assert CellFrom(b, changes, done, nb, r, c);
      if !Life.Hits(b, ch, r, c) {
        assert nb'.cells[r][c] == nb.cells[r][c];
      }
    }
  }

  /**
   * The loop of serialChangeCells: Set of every change, in list order. The abstract value
   * afterwards is the list applied to the one before.
   */
  method SetEach(c: Gol, ghost b: Board, changes: seq<Life.Change>)
    requires c.Valid() && c.View() == b && Life.Writable(b, changes)
    modifies c.grid.cells.Footprint()
    ensures c.Valid() && c.View() == Life.ApplyChanges(b, changes)
  {
    var k := 0;
    while k < |changes|
      invariant 0 <= k <= |changes|
      invariant c.Valid() && c.View() == Life.ApplyChanges(b, changes[..k])
    {
      assert changes[..k + 1] == changes[..k] + [changes[k]];
      Life.ApplyChangesSnoc(b, changes[..k], changes[k]);
      c.Set(changes[k].i, changes[k].j, changes[k].status);
      k := k + 1;
    }
    assert changes[..k] == changes;
  }

  /**
   * serialChangeCells: a clone of g with the changes written in list order. The ghost b
   * names the clone's grid, g's own unless it is a dok with a default other than 0.
   */
  method SerialChangeCells(g: Gol, ghost b: Board, changes: seq<Life.Change>) returns (c: Gol)
    requires g.Valid() && g.RulesMatch() && b == g.grid.ClonedView() && Life.Writable(b, changes)
    ensures fresh(c) && fresh(c.grid) && fresh(c.grid.cells.Footprint())
    ensures c.Valid() && c.RulesMatch() && c.SameAttributes(g)
    ensures c.neighborhood == g.neighborhood && c.TheRule() == g.TheRule()
    ensures c.View() == Life.ApplyChanges(b, changes)
  {
    c := g.Clone();
    assert c !in c.grid.cells.Footprint();
    SetEach(c, b, changes);
  }

  /**
   * The goroutines of parallelChangeCells: one Set per change, run in an order nothing
   * fixes. Each iteration takes any change not yet written.
   */
  method SetAny(c: Gol, ghost b: Board, changes: seq<Life.Change>)
    requires c.Valid() && c.View() == b && Life.Writable(b, changes)
    modifies c.grid.cells.Footprint()
    ensures c.Valid() && SomeOrder(b, changes, c.View())
  {
    ghost var nb := b;
    var pending := Indices(|changes|);
    AllFromStart(b, changes);
    while pending != {}
      invariant pending <= Indices(|changes|)
      invariant c.Valid() && c.View() == nb
      invariant nb.Valid() && nb.rows == b.rows && nb.cols == b.cols
      invariant nb.limitRows == b.limitRows && nb.limitCols == b.limitCols
      invariant AllFrom(b, changes, Indices(|changes|) - pending, nb)
      decreases |pending|
    {
      var k :| k in pending;
      AllFromNext(b, changes, Indices(|changes|) - pending, nb, k);
      c.Set(changes[k].i, changes[k].j, changes[k].status);
      nb := nb.Set(changes[k].i, changes[k].j, changes[k].status);
      assert Indices(|changes|) - (pending - {k}) == (Indices(|changes|) - pending) + {k};
      pending := pending - {k};
    }
    assert Indices(|changes|) - pending == Indices(|changes|);
  }

  /** parallelChangeCells: a clone of g with the changes written in some order. */
  method ParallelChangeCells(g: Gol, ghost b: Board, changes: seq<Life.Change>) returns (c: Gol)
    requires g.Valid() && g.RulesMatch() && b == g.grid.ClonedView() && Life.Writable(b, changes)
    ensures fresh(c) && fresh(c.grid) && fresh(c.grid.cells.Footprint())
    ensures c.Valid() && c.RulesMatch() && c.SameAttributes(g)
    ensures c.neighborhood == g.neighborhood && c.TheRule() == g.TheRule()
    ensures SomeOrder(b, changes, c.View())
  {
    c := g.Clone();
    assert c !in c.grid.cells.Footprint();
    SetAny(c, b, changes);
  }

  /**
   * ChangeCells: no changes return g itself; otherwise a changed clone, serially when
   * processes is SERIAL and by the goroutines otherwise. The ghost b names the grid
   * a clone of g holds.
   */
  method ChangeCells(g: Gol, ghost b: Board, changes: seq<Life.Change>) returns (r: Gol)
    requires g.Valid() && g.RulesMatch() && b == g.grid.ClonedView() && Life.Writable(b, changes)
    ensures changes == [] ==> r == g
    ensures changes != [] ==> fresh(r) && r.Valid() && r.RulesMatch() && r.SameAttributes(g)
    ensures changes != [] ==> r.neighborhood == g.neighborhood && r.TheRule() == g.TheRule()
    ensures changes != [] && g.processes == SERIAL ==> r.View() == Life.ApplyChanges(b, changes)
    ensures changes != [] && g.processes != SERIAL ==> SomeOrder(b, changes, r.View())
  {
    if |changes| == 0 {
      return g;
    }
    if g.processes == SERIAL {
      r := SerialChangeCells(g, b, changes);
    } else {
      r := ParallelChangeCells(g, b, changes);
    }
  }

  /** The status the last change landing on (r, c) writes comes from a change landing there. */
  lemma {:induction false} LastWriteFrom(b: Board, changes: seq<Life.Change>, r: int, c: int)
    requires Life.Writable(b, changes)
    ensures Life.LastWrite(b, changes, r, c).Some? ==>
      exists k | 0 <= k < |changes| :: Life.Hits(b, changes[k], r, c) && Life.LastWrite(b, changes, r, c).value == changes[k].status
    ensures Life.LastWrite(b, changes, r, c).None? ==>
      forall k | 0 <= k < |changes| :: !Life.Hits(b, changes[k], r, c)
    decreases |changes|
  {
    if changes != [] {
      var init := changes[..|changes| - 1];
      assert forall k | 0 <= k < |init| :: init[k] == changes[k];
      LastWriteFrom(b, init, r, c);
    }
  }

  /** The list applied in order is one of the outcomes of the goroutines. */
  lemma ListOrderIsSomeOrder(b: Board, changes: seq<Life.Change>)
    requires b.Valid() && Life.Writable(b, changes)
    ensures SomeOrder(b, changes, Life.ApplyChanges(b, changes))
  {
    var nb := Life.ApplyChanges(b, changes);
    forall r, c | b.InRange(r, c)
      ensures CellFrom(b, changes, Indices(|changes|), nb, r, c)
    {
      Life.ApplyChangesLastWins(b, changes, r, c);
      LastWriteFrom(b, changes, r, c);
    }
  }

  /** With distinct targets, the last change landing on a cell is the only one that does. */
  lemma {:induction false} LastWriteDistinct(b: Board, changes: seq<Life.Change>, k: int, r: int, c: int)
    requires Life.Writable(b, changes) && DistinctTargets(b, changes)
    requires 0 <= k < |changes| && Life.Hits(b, changes[k], r, c)
    ensures Life.LastWrite(b, changes, r, c) == Some(changes[k].status)
    decreases |changes|
  {
    if k < |changes| - 1 {
      var init := changes[..|changes| - 1];
      assert forall m | 0 <= m < |init| :: init[m] == changes[m];
      assert Target(b, changes[k]) != Target(b, changes[|changes| - 1]);
      LastWriteDistinct(b, init, k, r, c);
    }
  }

  /**
   * When no two changes land on the same cell, every order the goroutines may take gives
   * the list applied in order: the parallel path agrees with the serial one.
   */
  lemma SomeOrderIsListOrder(b: Board, changes: seq<Life.Change>, nb: Board)
    requires b.Valid() && Life.Writable(b, changes) && DistinctTargets(b, changes)
    requires SomeOrder(b, changes, nb)
    ensures nb == Life.ApplyChanges(b, changes)
  {
    var ab := Life.ApplyChanges(b, changes);
    forall r, c | 0 <= r < b.rows && 0 <= c < b.cols
      ensures nb.cells[r][c] == ab.cells[r][c]
    {
      assert CellFrom(b, changes, Indices(|changes|), nb, r, c);
      Life.ApplyChangesLastWins(b, changes, r, c);
      LastWriteFrom(b, changes, r, c);
      if k :| 0 <= k < |changes| && Life.Hits(b, changes[k], r, c) && nb.cells[r][c] == changes[k].status {
        LastWriteDistinct(b, changes, k, r, c);
      }
    }
    BoardExt(nb, ab);
  }
}
