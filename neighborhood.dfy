/**
 * Neighbourhoods (pkg/neighborhood/neighborhood.go): the values around a cell that
 * the rules look at, and the count of those equal to a given status.
 */
module Neighborhood {
  import opened Wrappers
  import opened Statuses
  import opened Topology

  const NONE: int := -1
  const MOORE: int := 1
  const VONNEUMANN: int := 2

  /** The two neighbourhood functions the code knows. */
  datatype Kind = Moore | VonNeumann

  /** GetFunc: the neighbourhood a code selects; any other code panics ("Wrong neighborhoodType"). */
  function GetFunc(code: int): (k: Option<Kind>)
    ensures k == Some(Moore) <==> code == MOORE
    ensures k == Some(VonNeumann) <==> code == VONNEUMANN
    ensures k.None? <==> code != MOORE && code != VONNEUMANN
  {
    if code == MOORE then Some(Moore)
    else if code == VONNEUMANN then Some(VonNeumann)
    else None
  }

  /** GetName: the display name of a code; any other code panics. */
  function GetName(code: int): (name: Option<string>)
    ensures name.Some? <==> GetFunc(code).Some?
    ensures name == Some("Moore") <==> code == MOORE
    ensures name == Some("Von Neumann") <==> code == VONNEUMANN
  {
    if code == MOORE then Some("Moore")
    else if code == VONNEUMANN then Some("Von Neumann")
    else None
  }

  /** The code of a kind; GetFunc recovers the kind from it. */
  function Code(k: Kind): (code: int)
    ensures GetFunc(code) == Some(k)
    ensures GetName(code).Some?
  {
    match k
    case Moore => MOORE
    case VonNeumann => VONNEUMANN
  }

  /** The offsets mooreNeighbors reads, in its order: the 3x3 square minus its centre. */
  function MooreOffsets(): (r: seq<(int, int)>)
    ensures |r| == 8
    ensures forall d :: d in r <==> -1 <= d.0 <= 1 && -1 <= d.1 <= 1 && d != (0, 0)
    ensures forall a, b | 0 <= a < b < |r| :: r[a] != r[b]
  {
    [(-1, -1), (-1, 0), (-1, 1), (0, -1), (0, 1), (1, -1), (1, 0), (1, 1)]
  }

  /** The offsets vonNeumannNeighbors reads, in its order: the four orthogonal steps. */
  function VonNeumannOffsets(): (r: seq<(int, int)>)
    ensures |r| == 4
    ensures forall d :: d in r <==> (d.0 == 0 && (d.1 == -1 || d.1 == 1)) || (d.1 == 0 && (d.0 == -1 || d.0 == 1))
    ensures forall a, b | 0 <= a < b < |r| :: r[a] != r[b]
  {
    [(-1, 0), (0, -1), (0, 1), (1, 0)]
  }

  function Offsets(k: Kind): seq<(int, int)> {
    match k
    case Moore => MooreOffsets()
    case VonNeumann => VonNeumannOffsets()
  }

  /** mooreNeighbors: the eight values around (i, j), read through the grid's topology. */
  function MooreNeighbors(b: Board, i: int, j: int): seq<int>
    requires b.Valid() && b.Readable()
  {
    [b.Get(i - 1, j - 1), b.Get(i - 1, j), b.Get(i - 1, j + 1),
     b.Get(i, j - 1), b.Get(i, j + 1),
     b.Get(i + 1, j - 1), b.Get(i + 1, j), b.Get(i + 1, j + 1)]
  }

  /** vonNeumannNeighbors: the four orthogonal values around (i, j). */
  function VonNeumannNeighbors(b: Board, i: int, j: int): seq<int>
    requires b.Valid() && b.Readable()
  {
    [b.Get(i - 1, j),
     b.Get(i, j - 1), b.Get(i, j + 1),
     b.Get(i + 1, j)]
  }

  /** The function GetFunc hands out, applied to the grid at (i, j). */
  function Neighbors(k: Kind, b: Board, i: int, j: int): seq<int>
    requires b.Valid() && b.Readable()
  {
    match k
    case Moore => MooreNeighbors(b, i, j)
    case VonNeumann => VonNeumannNeighbors(b, i, j)
  }

  /** The grid read at offset d from (i, j). */
  function At(b: Board, i: int, j: int, d: (int, int)): int
    requires b.Valid() && b.Readable()
  {
    b.Get(i + d.0, j + d.1)
  }

  /** The Moore neighbours are the reads at the Moore offsets, in the same order. */
  lemma MooreFollowsOffsets(b: Board, i: int, j: int)
    requires b.Valid() && b.Readable()
    ensures |MooreNeighbors(b, i, j)| == |MooreOffsets()|
    ensures forall n | 0 <= n < |MooreOffsets()| :: MooreNeighbors(b, i, j)[n] == At(b, i, j, MooreOffsets()[n])
  {
    var offs := MooreOffsets();
    assert offs == [(-1, -1), (-1, 0), (-1, 1), (0, -1), (0, 1), (1, -1), (1, 0), (1, 1)];
    assert MooreNeighbors(b, i, j) ==
      [At(b, i, j, offs[0]), At(b, i, j, offs[1]), At(b, i, j, offs[2]), At(b, i, j, offs[3]),
       At(b, i, j, offs[4]), At(b, i, j, offs[5]), At(b, i, j, offs[6]), At(b, i, j, offs[7])];
  }

  /** The von Neumann neighbours are the reads at the von Neumann offsets, in the same order. */
  lemma VonNeumannFollowsOffsets(b: Board, i: int, j: int)
    requires b.Valid() && b.Readable()
    ensures |VonNeumannNeighbors(b, i, j)| == |VonNeumannOffsets()|
    ensures forall n | 0 <= n < |VonNeumannOffsets()| :: VonNeumannNeighbors(b, i, j)[n] == At(b, i, j, VonNeumannOffsets()[n])
  {
    var offs := VonNeumannOffsets();
    assert offs == [(-1, 0), (0, -1), (0, 1), (1, 0)];
    assert VonNeumannNeighbors(b, i, j) ==
      [At(b, i, j, offs[0]), At(b, i, j, offs[1]), At(b, i, j, offs[2]), At(b, i, j, offs[3])];
  }

  /** How many values of s equal status. */
  function Count(s: seq<int>, status: int): (n: nat)
    ensures n <= |s|
  {
    if s == [] then 0
    else Count(s[..|s| - 1], status) + (if s[|s| - 1] == status then 1 else 0)
  }

  /** Counting distributes over concatenation. */
  lemma {:induction false} CountAppend(s: seq<int>, t: seq<int>, status: int)
    ensures Count(s + t, status) == Count(s, status) + Count(t, status)
  {
    if t != [] {
      CountAppend(s, t[..|t| - 1], status);
      assert (s + t)[..|s + t| - 1] == s + t[..|t| - 1];
      assert (s + t)[|s + t| - 1] == t[|t| - 1];
    } else {
      assert s + t == s;
    }
  }

  /** The count is the multiplicity of status in the multiset of values. */
  lemma {:induction false} CountIsMultiplicity(s: seq<int>, status: int)
    ensures Count(s, status) == multiset(s)[status]
  {
    if s != [] {
      CountIsMultiplicity(s[..|s| - 1], status);
      assert s == s[..|s| - 1] + [s[|s| - 1]];
    }
  }

  /** VOID values never add to the count of a status other than VOID. */
  lemma {:induction false} VoidNeverCounted(s: seq<int>, status: int)
    requires status != VOID
    ensures Count(s, status) + Count(s, VOID) <= |s|
  {
    if s != [] {
      VoidNeverCounted(s[..|s| - 1], status);
    }
  }

  /**
   * NeighborsCount: the loop over the neighbour values that increments a counter for
   * every value equal to status. The values are those the neighbourhood function returns.
   */
  method NeighborsCount(neighbors: seq<int>, status: int) returns (count: nat)
    ensures count == Count(neighbors, status)
    ensures count <= |neighbors|
  {
    count := 0;
    var k := 0;
    while k < |neighbors|
      invariant 0 <= k <= |neighbors|
      invariant count == Count(neighbors[..k], status)
    {
      assert neighbors[..k + 1][..k] == neighbors[..k];
      if neighbors[k] == status {
        count := count + 1;
      }
      k := k + 1;
    }
    assert neighbors[..k] == neighbors;
  }

  /**
   * Boundary semantics: the corner of a limited 3x3 grid has five VOID neighbours, so at
   * most three of its Moore neighbours can be alive.
   */
  lemma CornerOfLimitedGrid(b: Board)
    requires b.Valid() && b.rows == 3 && b.cols == 3 && b.limitRows && b.limitCols
    ensures Count(MooreNeighbors(b, 0, 0), VOID) >= 5
    ensures Count(MooreNeighbors(b, 0, 0), ALIVE) <= 3
  {
    var s := MooreNeighbors(b, 0, 0);
    assert s[..6] == [VOID, VOID, VOID, VOID, b.cells[0][1], VOID];
    assert Count(s[..1], VOID) == 1;
    assert Count(s[..2], VOID) == 2 by { assert s[..2][..1] == s[..1]; }
    assert Count(s[..3], VOID) == 3 by { assert s[..3][..2] == s[..2]; }
    assert Count(s[..4], VOID) == 4 by { assert s[..4][..3] == s[..3]; }
    assert Count(s[..5], VOID) >= 4 by { assert s[..5][..4] == s[..4]; }
    assert Count(s[..6], VOID) >= 5 by { assert s[..6][..5] == s[..5]; }
    assert Count(s[..7], VOID) >= 5 by { assert s[..7][..6] == s[..6]; }
    assert Count(s, VOID) >= 5 by { assert s[..7] == s[..|s| - 1]; }
    VoidNeverCounted(s, ALIVE);
  }

  /**
   * Boundary semantics: on a 3x3 grid wrapping on both axes the corner's Moore neighbours
   * are the eight other cells, none of them VOID.
   */
  lemma CornerOfWrappingGrid(b: Board)
    requires b.Valid() && b.rows == 3 && b.cols == 3 && !b.limitRows && !b.limitCols
    ensures MooreNeighbors(b, 0, 0) ==
      [b.cells[2][2], b.cells[2][0], b.cells[2][1],
       b.cells[0][2], b.cells[0][1],
       b.cells[1][2], b.cells[1][0], b.cells[1][1]]
  {
  }
}
