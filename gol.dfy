/**
 * The automaton (pkg/gol/gol.go): a grid, the rule it evolves under, the neighbourhood
 * it counts, and the attributes its equality compares.
 */
module Automaton {
  import opened Wrappers
  import opened Statuses
  import opened Topology
  import opened Mismatch
  import opened Neighborhood
  import opened Rules
  import opened CellsStorer
  import opened Grids

  /** Processes value selecting the serial stepper. */
  const SERIAL: int := 1
  /** Processes value asking for one Go process per CPU. */
  const CPUS: int := -1
  const DefaultThreadPoolSize: int := 10
  /** Thread pool size selecting one goroutine per cell. */
  const ExplosiveThreadPoolSize: int := -1

  /**
   * One side of SetRules: strconv.Atoi of each single character, added to the set, until
   * a character is not a digit. The set built so far is returned either way.
   */
  method ParseSide(part: string) returns (digits: set<int>, err: Option<RuleError>)
    ensures err.None? <==> ParseDigits(part).Success?
    ensures err.None? ==> digits == ParseDigits(part).value
    ensures err.Some? ==> err.value == ParseDigits(part).error
  {
    digits := {};
    var k := 0;
    while k < |part|
      invariant 0 <= k <= |part|
      invariant forall m | 0 <= m < k :: IsDigit(part[m])
      invariant forall d :: d in digits <==> 0 <= d <= 9 && DigitChar(d) in part[..k]
    {
      if !IsDigit(part[k]) {
        ParseDigitsStopsAt(part, k);
        return digits, Some(NotADigit(part[k]));
      }
      var d := part[k] as int - '0' as int;
      assert DigitChar(d) == part[k];
      assert part[..k + 1] == part[..k] + [part[k]];
      digits := digits + {d};
      k := k + 1;
    }
    assert part[..k] == part;
    var parsed := ParseDigits(part);
    assert forall d :: d in parsed.value <==> d in digits;
    err := None;
  }

  class Gol {
    var name: string
    var description: string
    const grid: Grid
    var generation: int
    var neighborhoodType: int
    /** neighborhoodFunc, the function GetFunc picked for neighborhoodType. */
    var neighborhood: Kind
    var rules: string
    /** survivalRule, the counts at which a live cell stays alive. */
    var survival: set<int>
    /** birthRule, the counts at which a dead cell comes to life. */
    var birth: set<int>
    var processes: int
    /** Set and read by spawning.go, though the struct in gol.go does not declare it. */
    var threadPoolSize: int

    /** The grid is well formed and neighborhoodFunc is the function GetFunc picks. */
    predicate Valid()
      reads this, grid, grid.cells.Footprint()
    {
      grid.Valid() && GetFunc(neighborhoodType) == Some(neighborhood)
    }

    /** The two digit sets are what SetRules parsed from the rule text. */
    predicate RulesMatch()
      reads this
    {
      ParseRules(rules) == Success(TheRule())
    }

    /** The grid's contents with its topology. */
    function View(): Board
      reads grid, grid.cells.Footprint()
      requires grid.Valid()
    {
      grid.View()
    }

    /** The rule the two sets stand for. */
    function TheRule(): Rule
      reads this
    {
      Rule(survival, birth)
    }

    /**
     * InitWithGrid on a new(Gol): the attributes are set, the grid given is adopted (not
     * copied), processes is CPUS and the thread pool size keeps its zero value. A rule
     * string SetRules rejects or an unknown neighbourhood code panics.
     */
    constructor InitWithGrid(name: string, description: string, generation: int, rules: string,
                             neighborhoodType: int, gr: Grid)
      requires ParseRules(rules).Success? && GetFunc(neighborhoodType).Some? && gr.Valid()
      ensures Valid() && RulesMatch() && grid == gr && this.name == name && this.description == description
      ensures this.generation == generation && this.rules == rules && this.neighborhoodType == neighborhoodType
      ensures TheRule() == ParseRules(rules).value && neighborhood == GetFunc(neighborhoodType).value
      ensures processes == CPUS && threadPoolSize == 0
    {
      this.name := name;
      this.description := description;
      this.generation := generation;
      this.neighborhoodType := neighborhoodType;
      neighborhood := GetFunc(neighborhoodType).value;
      grid := gr;
      processes := CPUS;
      threadPoolSize := 0;
      new;
      var err := SetRules(rules);
    }

    /**
     * SetRules: the text is kept as given, split on '/', and each side parsed digit by
     * digit; a non-digit or a missing second side is the panic. On that path the text is
     * already stored and the sets are left part-built.
     */
    method SetRules(text: string) returns (err: Option<RuleError>)
      modifies this
      ensures rules == text
      ensures err.None? <==> ParseRules(text).Success?
      ensures err.Some? ==> err.value == ParseRules(text).error
      ensures err.None? ==> TheRule() == ParseRules(text).value
      ensures name == old(name) && description == old(description)
      ensures generation == old(generation) && neighborhoodType == old(neighborhoodType)
      ensures neighborhood == old(neighborhood) && processes == old(processes) && threadPoolSize == old(threadPoolSize)
    {
      rules := text;
      var parts := Split(text, '/');
      var s, e := ParseSide(parts[0]);
      survival := s;
      if e.Some? {
        return e;
      }
      if |parts| < 2 {
        return Some(MissingBirth);
      }
      var b, f := ParseSide(parts[1]);
      birth := b;
      err := f;
    }

    /** Rules: exactly the text last given to SetRules. */
    function Rules(): string
      reads this
    {
      rules
    }

    function Rows(): nat
      reads grid
    {
      grid.cells.Rows()
    }

    function Cols(): nat
      reads grid
    {
      grid.cells.Cols()
    }

    /** NeighborhoodTypeString: the display name of the neighbourhood code. */
    function NeighborhoodTypeString(): (s: string)
      reads this, grid, grid.cells.Footprint()
      requires Valid()
      ensures GetName(neighborhoodType) == Some(s)
    {
      GetName(neighborhoodType).value
    }

    method SetProcesses(p: int)
      modifies this
      ensures processes == p
      ensures name == old(name) && description == old(description) && rules == old(rules)
      ensures generation == old(generation) && neighborhoodType == old(neighborhoodType) && neighborhood == old(neighborhood)
      ensures survival == old(survival) && birth == old(birth) && threadPoolSize == old(threadPoolSize)
    {
      processes := p;
    }

    method SetThreadPoolSize(size: int)
      modifies this
      ensures threadPoolSize == size
      ensures name == old(name) && description == old(description) && rules == old(rules)
      ensures generation == old(generation) && neighborhoodType == old(neighborhoodType) && neighborhood == old(neighborhood)
      ensures survival == old(survival) && birth == old(birth) && processes == old(processes)
    {
      threadPoolSize := size;
    }

    /** Get: the grid's Get. */
    function Get(i: int, j: int): (v: int)
      reads grid, grid.cells.Footprint()
      requires grid.Valid() && View().CanRead(i, j)
      ensures v == View().Get(i, j)
    {
      grid.Get(i, j)
    }

    /** neighborhoodFunc(g, i, j): the neighbour values, each read with Get. */
    function NeighborValues(i: int, j: int): (s: seq<int>)
      reads this, grid, grid.cells.Footprint()
      requires Valid() && View().Readable()
      ensures s == Neighbors(neighborhood, View(), i, j)
    {
      match neighborhood
      case Moore =>
        [Get(i - 1, j - 1), Get(i - 1, j), Get(i - 1, j + 1),
         Get(i, j - 1), Get(i, j + 1),
         Get(i + 1, j - 1), Get(i + 1, j), Get(i + 1, j + 1)]
      case VonNeumann =>
        [Get(i - 1, j),
         Get(i, j - 1), Get(i, j + 1),
         Get(i + 1, j)]
    }

    /** Set: the grid's Set; the automaton's attributes are not touched. */
    method Set(i: int, j: int, v: int)
      requires Valid() && View().CanWrite(i, j)
      modifies grid.cells.Footprint()
      ensures Valid() && View() == old(View()).Set(i, j, v)
      ensures grid.cells.DokStorer? ==> grid.cells.dok.defaultValue == old(grid.cells.dok.defaultValue)
      ensures grid.cells.DokStorer? ==>
        var key := (Normalize(grid.limitRows, i, grid.cells.Rows()), Normalize(grid.limitCols, j, grid.cells.Cols()));
        grid.cells.dok.cells ==
          if v == grid.cells.dok.defaultValue then old(grid.cells.dok.cells) - {key} else old(grid.cells.dok.cells)[key := v]
      ensures grid.cells.ClonesExactly() == old(grid.cells.ClonesExactly())
      ensures grid.ClonedView() ==
        old(grid.ClonedView()).Set(i, j, if grid.cells.DokStorer? && v == grid.cells.dok.defaultValue then 0 else v)
    {
      grid.Set(i, j, v);
    }

    /** SetAll: the grid's SetAll. */
    method SetAll(v: int)
      requires Valid()
      modifies grid.cells.Footprint()
      ensures Valid() && View() == old(View()).Fill(v)
      ensures grid.cells.DokStorer? ==> grid.cells.dok.defaultValue == v && grid.cells.dok.cells == map[]
      ensures grid.ClonedView() == old(View()).Fill(if grid.cells.DokStorer? then 0 else v)
    {
      grid.SetAll(v);
    }

    /** The attributes Equals compares besides the grid. */
    predicate SameAttributes(other: Gol)
      reads this, other
    {
      name == other.name && description == other.description && generation == other.generation &&
      rules == other.rules && neighborhoodType == other.neighborhoodType && processes == other.processes
    }

    /**
     * What Equals accepts: the same attributes and grids equal as the grid's Equals sees
     * them. That call passes no mode, so the grid's storer compares in its own way.
     */
    predicate SameAs(other: Gol)
      reads this, grid, grid.cells.Footprint(), other, other.grid, other.grid.cells.Footprint()
      requires Valid() && other.Valid()
    {
      SameAttributes(other) && grid.SameAs(other.grid, "")
    }

    /** A dok grid's EqualsError panics on a dense argument of the same extents. */
    predicate CanCompare(other: Gol)
      reads this, grid, other, other.grid
    {
      SameAttributes(other) ==> Comparable(grid.cells, other.grid.cells, false)
    }

    /** Equals: the attributes first; only when they agree are the grids compared. */
    method Equals(other: Gol) returns (eq: bool)
      requires Valid() && other.Valid() && CanCompare(other)
      ensures eq <==> SameAs(other)
    {
      eq := SameAttributes(other);
      if eq {
        eq := grid.Equals(other.grid, "");
      }
    }

    /** GridEquals: only the grids, whatever the generations. */
    method GridEquals(other: Gol) returns (eq: bool)
      requires Valid() && other.Valid() && Comparable(grid.cells, other.grid.cells, false)
      ensures eq <==> grid.SameAs(other.grid, "")
    {
      eq := grid.Equals(other.grid, "");
    }

    /**
     * EqualsError: name, description, rules, generation, neighbourhood, processes, then
     * the grid; the first difference is the error, and there is none exactly when Equals
     * holds.
     */
    method EqualsError(other: Gol) returns (e: Option<EqError>)
      requires Valid() && other.Valid() && CanCompare(other)
      ensures e.None? <==> SameAs(other)
      ensures name != other.name ==> e == Some(NamesDiffer(name, other.name))
      ensures (name == other.name && description != other.description) ==>
        e == Some(DescriptionsDiffer(description, other.description))
      ensures (name == other.name && description == other.description && rules != other.rules) ==>
        e == Some(RulesDiffer(rules, other.rules))
      ensures (name == other.name && description == other.description && rules == other.rules &&
               generation != other.generation) ==>
        e == Some(GenerationsDiffer(generation, other.generation))
      ensures (name == other.name && description == other.description && rules == other.rules &&
               generation == other.generation && neighborhoodType != other.neighborhoodType) ==>
        e == Some(NeighborhoodsDiffer(NeighborhoodTypeString(), other.NeighborhoodTypeString()))
      ensures (name == other.name && description == other.description && rules == other.rules &&
               generation == other.generation && neighborhoodType == other.neighborhoodType &&
               processes != other.processes) ==>
        e == Some(ProcessesDiffer(processes, other.processes))
      ensures SameAttributes(other) && !CellsEqual(grid.cells, other.grid.cells, false) ==> e.Some? && IsCellsError(e.value)
      ensures SameAttributes(other) && (grid.cells.Rows() != other.grid.cells.Rows() || grid.cells.Cols() != other.grid.cells.Cols()) ==>
        e == DimensionsError(grid.cells.Rows(), grid.cells.Cols(), other.grid.cells.Rows(), other.grid.cells.Cols())
      ensures SameAttributes(other) && e.Some? && !CellsEqual(grid.cells, other.grid.cells, false) && grid.cells.DenseStorer? &&
              grid.cells.Rows() == other.grid.cells.Rows() && grid.cells.Cols() == other.grid.cells.Cols() ==>
        FirstDifference(grid.cells.Matrix(), other.grid.cells.Matrix(), grid.cells.Rows(), grid.cells.Cols(), e.value)
      ensures SameAttributes(other) && CellsEqual(grid.cells, other.grid.cells, false) && grid.limitRows != other.grid.limitRows ==>
        e == Some(RowLimitsDiffer(grid.LimitRowsString(), other.grid.LimitRowsString()))
      ensures SameAttributes(other) && CellsEqual(grid.cells, other.grid.cells, false) && grid.limitRows == other.grid.limitRows &&
              grid.limitCols != other.grid.limitCols ==>
        e == Some(ColLimitsDiffer(grid.LimitColsString(), other.grid.LimitColsString()))
    {
      if name != other.name {
        return Some(NamesDiffer(name, other.name));
      }
      if description != other.description {
        return Some(DescriptionsDiffer(description, other.description));
      }
      if rules != other.rules {
        return Some(RulesDiffer(rules, other.rules));
      }
      if generation != other.generation {
        return Some(GenerationsDiffer(generation, other.generation));
      }
      if neighborhoodType != other.neighborhoodType {
        return Some(NeighborhoodsDiffer(NeighborhoodTypeString(), other.NeighborhoodTypeString()));
      }
      if processes != other.processes {
        return Some(ProcessesDiffer(processes, other.processes));
      }
      e := grid.EqualsError(other.grid, "");
    }

    /**
     * Clone: a new automaton over a clone of the grid with the same attributes, so it
     * Equals the original (a dok's Equals compares explicit keys, not the default); the
     * thread pool size is not copied.
     */
    method Clone() returns (c: Gol)
      requires Valid() && RulesMatch()
      ensures fresh(c) && fresh(c.grid) && fresh(c.grid.cells.Footprint()) && c.Valid() && c.RulesMatch()
      ensures c.SameAttributes(this) && c.View() == grid.ClonedView() && c.SameAs(this)
      ensures c.neighborhood == neighborhood && c.TheRule() == TheRule() && c.threadPoolSize == 0
    {
      var gr := grid.Clone();
      c := new Gol.InitWithGrid(name, description, generation, rules, neighborhoodType, gr);
      c.SetProcesses(processes);
    }
  }

  /**
   * Init on a new(Gol): a fresh all-DEAD grid of the given extents and limits, the rule
   * text parsed, processes CPUS. The grid's storer kind is not among the arguments the
   * call passes to NewGrid; it is a parameter here. An unknown kind is the factory's
   * error, a rule text SetRules rejects or an unknown neighbourhood code panics.
   */
  method Init(name: string, description: string, generation: int, rows: nat, cols: nat,
              rowsLimitation: string, colsLimitation: string, rules: string, neighborhoodType: int,
              cellsStorerType: string) returns (r: Result<Gol, FactoryError>)
    requires ParseRules(rules).Success? && GetFunc(neighborhoodType).Some?
    ensures r.Success? <==> ToLower(cellsStorerType) == "dense" || ToLower(cellsStorerType) == "dok"
    ensures r.Failure? ==> r.error == InvalidGridType(cellsStorerType)
    ensures r.Success? ==> fresh(r.value) && r.value.Valid() && r.value.RulesMatch()
    ensures r.Success? ==>
      r.value.View() == Board(rows, cols, rowsLimitation == "limited", colsLimitation == "limited", Filled(rows, cols, DEAD))
    ensures r.Success? ==> r.value.name == name && r.value.description == description && r.value.generation == generation
    ensures r.Success? ==> r.value.rules == rules && r.value.TheRule() == ParseRules(rules).value
    ensures r.Success? ==> r.value.neighborhoodType == neighborhoodType && r.value.neighborhood == GetFunc(neighborhoodType).value
    ensures r.Success? ==> r.value.processes == CPUS
  {
    var gr := NewGrid(rows, cols, rowsLimitation, colsLimitation, cellsStorerType);
    if gr.Failure? {
      return Failure(gr.error);
    }
    var g := new Gol.InitWithGrid(name, description, generation, rules, neighborhoodType, gr.value);
    r := Success(g);
  }

  /** NewGol: Init with both axes limited and the Moore neighbourhood. */
  method NewGol(name: string, description: string, generation: int, rows: nat, cols: nat, rules: string,
                cellsStorerType: string) returns (r: Result<Gol, FactoryError>)
    requires ParseRules(rules).Success?
    ensures r.Success? <==> ToLower(cellsStorerType) == "dense" || ToLower(cellsStorerType) == "dok"
    ensures r.Success? ==> fresh(r.value) && r.value.Valid() && r.value.RulesMatch()
    ensures r.Success? ==> r.value.View() == Board(rows, cols, true, true, Filled(rows, cols, DEAD))
    ensures r.Success? ==> r.value.name == name && r.value.description == description && r.value.generation == generation
    ensures r.Success? ==> r.value.rules == rules && r.value.neighborhood == Moore && r.value.processes == CPUS
  {
    r := Init(name, description, generation, rows, cols, "limited", "limited", rules, MOORE, cellsStorerType);
  }
}
