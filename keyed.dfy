/**
 * What the two key-value storers (pkg/grid/dok.go and pkg/grid/storage.go) share: a
 * map from explicit keys to values, a default for every other cell, and the explicit-key
 * equality of their EqualsError, which walks the maps with sync.Map.Range.
 */
module Keyed {
  import opened Wrappers
  import opened Topology
  import opened Mismatch

  /** The coordinates of a cell, the _Key struct. */
  type Key = (int, int)

  /** Every explicit key lies inside the extents (assertIndexes guards every Set). */
  predicate KeysInRange(m: map<Key, int>, rows: nat, cols: nat) {
    forall k | k in m :: 0 <= k.0 < rows && 0 <= k.1 < cols
  }

  /** Get: the stored value when the key exists, the default otherwise. */
  function Lookup(m: map<Key, int>, default: int, i: int, j: int): int {
    if (i, j) in m then m[(i, j)] else default
  }

  /** The cells a key-value storer stands for. */
  function KeyedMatrix(m: map<Key, int>, default: int, rows: nat, cols: nat): (r: seq<seq<int>>)
    ensures IsMatrix(r, rows, cols)
  {
    seq(rows, i => seq(cols, j => Lookup(m, default, i, j)))
  }

  /**
   * The two Range walks of EqualsError. The first visits the receiver's keys in an order
   * sync.Map leaves unspecified and stops at the first key the argument lacks or holds
   * another value for; the second visits the argument's keys and stops at the first one
   * the receiver lacks. The receiver's value printed in the first walk's messages is
   * always 0: the closure declares its own myValue, shadowing the one that is printed.
   */
  method KeyedEqualsError(mine: map<Key, int>, theirs: map<Key, int>) returns (e: Option<EqError>)
    ensures e.None? <==> mine == theirs
    ensures e.Some? ==> e.value.CellMissing? || e.value.CellsDiffer? || e.value.OnlyInArgument?
    ensures e.Some? && e.value.CellMissing? ==>
      (e.value.i, e.value.j) in mine && (e.value.i, e.value.j) !in theirs && e.value.mine == 0
    ensures e.Some? && e.value.CellsDiffer? ==>
      (e.value.i, e.value.j) in mine && (e.value.i, e.value.j) in theirs &&
      mine[(e.value.i, e.value.j)] != theirs[(e.value.i, e.value.j)] &&
      e.value.mine == 0 && e.value.theirs == theirs[(e.value.i, e.value.j)]
    ensures e.Some? && e.value.OnlyInArgument? ==>
      (e.value.i, e.value.j) in theirs && (e.value.i, e.value.j) !in mine &&
      e.value.theirs == theirs[(e.value.i, e.value.j)] &&
      forall k | k in mine :: k in theirs && mine[k] == theirs[k]
  {
    var todo := mine.Keys;
    while todo != {}
      invariant todo <= mine.Keys
      invariant forall k | k in mine && k !in todo :: k in theirs && mine[k] == theirs[k]
      decreases todo
    {
      var k :| k in todo;
      if k !in theirs {
        return Some(CellMissing(k.0, k.1, 0));
      }
      if mine[k] != theirs[k] {
        return Some(CellsDiffer(k.0, k.1, 0, theirs[k]));
      }
      todo := todo - {k};
    }
    todo := theirs.Keys;
    while todo != {}
      invariant todo <= theirs.Keys
      invariant forall k | k in theirs && k !in todo :: k in mine
      decreases todo
    {
      var k :| k in todo;
      if k !in mine {
        return Some(OnlyInArgument(k.0, k.1, theirs[k]));
      }
      todo := todo - {k};
    }
    assert mine.Keys == theirs.Keys;
    e := None;
  }

  /**
   * The Range walk of Clone: every explicit key is stored into the copy, so the copy
   * holds exactly the same keys and values.
   */
  method CopyKeys(m: map<Key, int>) returns (copy: map<Key, int>)
    ensures copy == m
  {
    copy := map[];
    var todo := m.Keys;
    while todo != {}
      invariant todo <= m.Keys
      invariant copy.Keys == m.Keys - todo
      invariant forall k | k in copy :: copy[k] == m[k]
      decreases todo
    {
      var k :| k in todo;
      copy := copy[k := m[k]];
      todo := todo - {k};
    }
  }

  /** Storing a value at one key changes the matrix at that one cell. */
  lemma StoreUpdates(m: map<Key, int>, default: int, rows: nat, cols: nat, i: int, j: int, v: int)
    requires 0 <= i < rows && 0 <= j < cols
    ensures KeyedMatrix(m[(i, j) := v], default, rows, cols) ==
      KeyedMatrix(m, default, rows, cols)[i := KeyedMatrix(m, default, rows, cols)[i][j := v]]
  {
    var a := KeyedMatrix(m[(i, j) := v], default, rows, cols);
    var before := KeyedMatrix(m, default, rows, cols);
    MatrixExt(a, before[i := before[i][j := v]], rows, cols);
  }

  /** Deleting a key whose cell should read as the default changes the matrix at that one cell. */
  lemma DeleteUpdates(m: map<Key, int>, default: int, rows: nat, cols: nat, i: int, j: int)
    requires 0 <= i < rows && 0 <= j < cols
    ensures KeyedMatrix(m - {(i, j)}, default, rows, cols) ==
      KeyedMatrix(m, default, rows, cols)[i := KeyedMatrix(m, default, rows, cols)[i][j := default]]
  {
    var a := KeyedMatrix(m - {(i, j)}, default, rows, cols);
    var before := KeyedMatrix(m, default, rows, cols);
    MatrixExt(a, before[i := before[i][j := default]], rows, cols);
  }

  /** With no explicit key every cell reads as the default. */
  lemma EmptyIsFilled(default: int, rows: nat, cols: nat)
    ensures KeyedMatrix(map[], default, rows, cols) == Filled(rows, cols, default)
  {
    MatrixExt(KeyedMatrix(map[], default, rows, cols), Filled(rows, cols, default), rows, cols);
  }
}
