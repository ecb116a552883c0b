# congolway engine in Dafny

A model of the automaton engine of congolway, a Game of Life written in Go, with proofs
about it. It covers:

- **Cell storers.** The dense row-major storer, the dictionary of keys ("dok") with its
  default value, the older key-value `Storage`, and the `CellsStorerFactory` choosing
  between the first two by name.
- **The grid.** Each axis is either limited (reads outside it give `VOID`) or unlimited
  (indices wrap with Go's `((i % n) + n) % n`).
- **Neighbourhoods.** Moore and von Neumann, and `NeighborsCount`.
- **The "S/B" rule notation** and `nextCell`.
- **Stepping a generation.** The serial and the pooled steppers, `NextGeneration` and
  `FastForward`.
- **`ChangeCells`.**
- **Equality checks** with their first-difference error reports.
- **The first revision** of the program (`src/gol`): a bounded dense grid with the rule
  fixed to 23/3.

Every stateful Go type is a Dafny class. The dense storers keep an `array<int>`; the key-value
storers keep a `map`. Each class exposes an abstract value:

- a storer's `Matrix()`: its cells as rows of ints;
- a grid's `View()`: a `Topology.Board`, which is the cells plus one limit flag per axis.

The meaning of the engine is stated once, on boards:

- `Life.NextCell`: the rule for one cell;
- `Life.Step`: one generation;
- `Life.StepN`: n generations;
- `Life.ApplyChanges`: a list of changes.

Each imperative stepper, and the first revision's stepper too, is proved to compute exactly
those functions.

Several call sites in the Go files do not match the signatures they call. The model follows
the evident intent in each case:

- `copyWithEmptyGrid` passes the rule text and the generation to `InitWithGrid` in swapped
  order. The model passes them in declared order.
- `threadPoolSize` is read and set by the steppers, but `Gol` does not declare it. It is a
  field of the model's `Gol`.
- `grid.NewGrid` is called with four arguments but takes five: the storer kind is missing.
  The model's `Automaton.Init` and `Automaton.NewGol` take the kind as a parameter.
- `Gol.Equals` and `GridEquals` pass no comparison mode to `Grid.Equals`. The model uses the
  empty mode, which selects `EqualsError`.
- `Dense.EqualsError` delegates to a package-level `EqualsError`. That function is not part
  of this model. `CellsStorer.CellByCellError` gives what it reports: rows, then cols, then
  the first differing cell in row-major order, as `pkg/grid/dense_test.go:106-182` expects.

The two defects listed under Findings below are kept as written wherever the engine reaches
them, and the corrected definitions sit beside them:

- Every clone of a dok storer goes through `Dok.Clone`, so it keeps the explicit keys but
  reads 0 wherever it has none. `CellsStorer.Storer.ClonedMatrix` and
  `Grids.Grid.ClonedView` name what a clone holds. They are the storer's and the grid's
  own contents unless the storer is a dok whose default is not 0, as after `SetAll(ALIVE)`.
  The grid constructor, `Grid.Clone`, `Gol.Clone`, `FastForward` and the change methods
  are stated in those terms.
- The first revision's `Gol.Equals` and `GridEquals` use the grid comparison that ignores
  the column counts.

Goroutines are modelled by what the code relies on:

- **The pooled stepper.** Its jobs each write a distinct cell of a fresh grid. The model
  runs them one at a time, in an unspecified order (`var p :| p in pending`).
- **`parallelChangeCells`.** Its writes happen in any order. The model proves that the
  result is one in which each cell holds the value of some change that targets it.
  When no two changes target the same cell, that result equals the list-order result.

## Model

| member | source | states |
|---|---|---|
| Ints.MaxInt | pkg/utils/int.go:4-9 | the result is at least both arguments and is one of them |
| Ints.MinInt | pkg/utils/int.go:12-17 | the result is at most both arguments and is one of them |
| Topology.GoRem | pkg/grid/grid.go:70 | Go's truncating `%`: the remainder lies strictly between -n and n and has the sign of the dividend |
| Topology.GoDivision | pkg/grid/grid.go:70 | Go's quotient times n plus Go's remainder gives the dividend back |
| Topology.DivModUnique | pkg/grid/grid.go:70 | a decomposition x = k*n + r with 0 <= r < n is Dafny's Euclidean `/` and `%` |
| Topology.WrapIsEuclidean | pkg/grid/grid.go:70 | `((i % n) + n) % n` with Go's truncating `%` equals Dafny's Euclidean `i % n` for every i and n > 0 |
| Topology.WrapInRange | pkg/grid/grid.go:100 | on an unlimited axis every index lands in [0, n), and in-range indices stay put |
| Topology.WrapPeriodic | pkg/grid/grid.go:100 | on an unlimited axis, i + n lands where i does |
| Topology.LimitString | pkg/grid/grid.go:52-57 | "limited" exactly when the axis is limited, "unlimited" otherwise |
| Topology.Filled | pkg/grid/dense.go:49-53 | a rows x cols matrix whose every cell is the value |
| Topology.MatrixExt | pkg/grid/dense.go:35-39 | two matrices of one shape that agree on every cell are equal |
| Topology.Board.Set | pkg/grid/grid.go:117-121 | a write keeps the extents and the limits of the board |
| Topology.Board.Fill | pkg/grid/grid.go:124-126 | SetAll keeps the shape and puts the value in every stored cell |
| Topology.BoardExt | pkg/grid/grid.go:107-114 | boards of one shape and limits that agree on every stored cell are equal |
| Topology.GetSemantics | pkg/grid/grid.go:107-114 | a read off a limited axis is VOID; an in-range read is the stored cell |
| Topology.GetRowPeriodic | pkg/grid/grid.go:63-73 | on unlimited rows, Get(i + rows, j) == Get(i, j), and a read goes to row i % rows |
| Topology.GetColPeriodic | pkg/grid/grid.go:93-103 | on unlimited cols, Get(i, j + cols) == Get(i, j), and a read goes to column j % cols |
| Topology.SetThenGet | pkg/grid/grid.go:117-121 | after Set(i, j, v), Get(i, j) is v and every other stored cell is unchanged |
| Mismatch.DimensionsError | pkg/grid/dok.go:197-207 | no error exactly when rows and cols match; a rows difference is reported before a cols difference, with both values |
| Neighborhood.GetFunc | pkg/neighborhood/neighborhood.go:31-39 | MOORE selects Moore, VONNEUMANN selects von Neumann, and any other code is the panic |
| Neighborhood.GetName | pkg/neighborhood/neighborhood.go:42-50 | "Moore" exactly for MOORE, "Von Neumann" exactly for VONNEUMANN, and the panic otherwise |
| Neighborhood.Code | pkg/neighborhood/neighborhood.go:31-39 | every kind has a code that GetFunc maps back to it |
| Neighborhood.MooreOffsets | pkg/neighborhood/neighborhood.go:14-20 | eight distinct offsets: exactly the 3x3 square minus its centre |
| Neighborhood.VonNeumannOffsets | pkg/neighborhood/neighborhood.go:22-28 | four distinct offsets: exactly the orthogonal unit steps |
| Neighborhood.MooreFollowsOffsets | pkg/neighborhood/neighborhood.go:14-20 | mooreNeighbors is the grid read at each Moore offset, in the listed order |
| Neighborhood.VonNeumannFollowsOffsets | pkg/neighborhood/neighborhood.go:22-28 | vonNeumannNeighbors is the grid read at each von Neumann offset, in the listed order |
| Neighborhood.Count | pkg/neighborhood/neighborhood.go:54-62 | the count of a status never exceeds the number of values |
| Neighborhood.CountAppend | pkg/neighborhood/neighborhood.go:54-62 | the count distributes over concatenation |
| Neighborhood.CountIsMultiplicity | pkg/neighborhood/neighborhood.go:54-62 | the count is the status's multiplicity in the multiset of values |
| Neighborhood.VoidNeverCounted | pkg/neighborhood/neighborhood.go:54-62 | VOID values and the values counted for a different status are disjoint, so an off-grid read never adds to an ALIVE count |
| Neighborhood.NeighborsCount | pkg/neighborhood/neighborhood.go:54-62 | the counting loop returns the number of values equal to the status, at most the length |
| Neighborhood.CornerOfLimitedGrid | pkg/neighborhood/neighborhood.go:14-20 | at the corner of a limited 3x3 grid, at least five Moore neighbours are VOID and at most three are alive |
| Neighborhood.CornerOfWrappingGrid | pkg/neighborhood/neighborhood.go:14-20 | at the corner of a wrapping 3x3 grid, the Moore neighbours are the cells across both edges |
| Rules.IndexOf | pkg/gol/gol.go:91 | the first position of the character |
| Rules.Split | pkg/gol/gol.go:91 | strings.Split gives at least one piece, exactly one when the separator is absent, and no piece contains it |
| Rules.JoinSplit | pkg/gol/gol.go:91 | joining the pieces of a split gives back the text |
| Rules.SplitJoin | pkg/gol/gol.go:91 | splitting a join of separator-free pieces gives back the pieces |
| Rules.DigitChar | pkg/gol/gol.go:96 | the character of a digit is a digit character whose value is the digit |
| Rules.ParseDigits | pkg/gol/gol.go:95-101 | success exactly when every character is a digit; the set is exactly the digits present; a failure names a non-digit of the text |
| Rules.ParseDigitsStopsAt | pkg/gol/gol.go:94-101 | the error names the first non-digit |
| Rules.ParseRules | pkg/gol/gol.go:89-111 | success exactly when there is a '/' and both sides are all digits; survival holds the digits before the first '/', birth the digits after it |
| Rules.DigitsFrom | pkg/gol/gol.go:94-101 | ascending digit characters, exactly those of the set from d upwards |
| Rules.DigitsThenParse | pkg/gol/gol.go:94-101 | parsing the ascending digits of a set of single digits gives the set back |
| Rules.FormatThenParse | pkg/gol/gol.go:89-111 | parsing the canonical notation of a rule gives the rule back |
| Rules.ParseThenFormat | pkg/gol/gol.go:89-111 | a parsed rule holds only single digits, and its canonical notation parses to the same rule |
| Rules.ConwayNotation | pkg/gol/gol.go:89-111 | "23/3" parses to survival {2, 3} and birth {3} |
| Life.AliveCount | pkg/gol/spawning.go:176 | a live-neighbour count is at most 8, and at most 4 for von Neumann |
| Life.AliveCountOf | pkg/neighborhood/neighborhood.go:54-62 | NeighborsCount over the neighbourhood function's values is the live-neighbour count |
| Life.NextCell | pkg/gol/spawning.go:175-195 | a live cell survives iff its count is a survival count; a dead cell is born iff its count is a birth count; any other status is an error at (i, j); success gives ALIVE or DEAD |
| Life.NextValue | pkg/gol/spawning.go:175-195 | the value nextCell succeeds with on a board of statuses |
| Life.Step | pkg/gol/spawning.go:76-90 | one generation keeps extents and limits, and its cells are all statuses |
| Life.StepCells | pkg/gol/spawning.go:76-90 | every in-range cell of the next generation is nextCell of the current board |
| Life.StepN | pkg/gol/spawning.go:58-65 | n generations keep extents and limits |
| Life.StepNAdd | pkg/gol/spawning.go:58-65 | m generations and then n more are m + n generations |
| Life.StepNLast | pkg/gol/spawning.go:58-65 | n + 1 generations are one step after n generations |
| Life.FixedPointForever | pkg/gol/spawning_test.go:104-113 | a board one step leaves alone stays the same for any number of steps |
| Life.PeriodTwo | pkg/gol/spawning_test.go:115-137 | a board that two steps bring back alternates with period two |
| Life.ApplyChanges | pkg/gol/changing.go:22-28 | applying changes keeps extents and limits |
| Life.ApplyChangesLastWins | pkg/gol/changing.go:24-26 | after the changes each cell holds the status of the last change landing on it, or its old value when none does |
| Life.ApplyChangesSnoc | pkg/gol/changing.go:24-26 | one more change at the end of the list is one more Set |
| DenseStorage.PosBounds | pkg/grid/dense.go:105-107 | an in-range cell's position lies in [0, rows*cols) |
| DenseStorage.PosInverse | pkg/grid/dense.go:105-107 | the row and the column are recovered from the position |
| DenseStorage.PosInjective | pkg/grid/dense.go:105-107 | distinct in-range cells have distinct positions |
| DenseStorage.Unflatten | pkg/grid/dense.go:35-39 | the array, read row-major, is a rows x cols matrix |
| DenseStorage.UnflattenUpdate | pkg/grid/dense.go:42-46 | writing pos(i, j) of the array writes exactly cell (i, j) of the matrix |
| DenseStorage.UnflattenConstant | pkg/grid/dense.go:49-53 | an array holding v everywhere is the matrix filled with v |
| DenseStorage.Dense.constructor | pkg/grid/dense.go:15-21 | the requested extents, every cell 0 |
| DenseStorage.Dense.Get | pkg/grid/dense.go:35-39 | the cell (i, j); indices outside the extents are excluded, as assertIndexes panics on them |
| DenseStorage.Dense.Set | pkg/grid/dense.go:42-46 | cell (i, j) becomes v and every other cell is unchanged |
| DenseStorage.Dense.SetAll | pkg/grid/dense.go:49-53 | every cell becomes v |
| DenseStorage.Dense.Clone | pkg/grid/dense.go:81-87 | a fresh array with the same extents and cells, so later writes to one copy do not reach the other |
| DenseStorage.Dense.CloneEmpty | pkg/grid/dense.go:90-92 | a fresh array with the same extents and every cell 0 |
| Keyed.KeyedMatrix | pkg/grid/dok.go:49-56 | the keys over the default read as a rows x cols matrix |
| Keyed.KeyedEqualsError | pkg/grid/storage.go:79-142 | no error exactly when the key maps are equal; a missing key or a different value is reported at a key of the receiver, with the receiver's value printed as 0; a key only in the argument is reported when the receiver's keys all match |
| Keyed.CopyKeys | pkg/grid/storage.go:145-152 | the Range copy holds exactly the same keys and values |
| Keyed.StoreUpdates | pkg/grid/storage.go:60-63 | storing a key changes exactly that cell of the matrix |
| Keyed.DeleteUpdates | pkg/grid/dok.go:59-66 | deleting a key makes exactly that cell read as the default |
| Keyed.EmptyIsFilled | pkg/grid/dok.go:69-72 | with no key every cell reads as the default |
| DokStorage.Dok.constructor | pkg/grid/dok.go:22-28 | NewDok as written: no key and default 0, whatever default is passed |
| DokStorage.Dok.WithDefault | pkg/grid/dok.go:22-28 | NewDok as intended: no key, and every cell reads as the default passed |
| DokStorage.Dok.Get | pkg/grid/dok.go:49-56 | the stored value when the key exists, the default otherwise, i.e. cell (i, j) of the matrix |
| DokStorage.Dok.Set | pkg/grid/dok.go:59-66 | the key is deleted when v is the default and stored otherwise; cell (i, j) becomes v and nothing else changes; a map with no key holding the default keeps none |
| DokStorage.Dok.SetAll | pkg/grid/dok.go:69-72 | the default becomes v and every key is dropped, so every cell reads v |
| DokStorage.Dok.EqualsError | pkg/grid/dok.go:82-145 | no error exactly when extents and explicit keys with their values agree; dimensions are checked rows first |
| DokStorage.Dok.Clone | pkg/grid/dok.go:174-181 | as written: the same keys, with the default reset to 0 |
| DokStorage.Dok.CloneKeepingDefault | pkg/grid/dok.go:174-181 | as intended: an exact copy, same keys, same default, same cells |
| DokStorage.Dok.CloneEmpty | pkg/grid/dok.go:184-186 | same extents, no key, default 0: every cell 0 |
| DokStorage.CloneLosesFill | pkg/grid/dok.go:174-181 | after SetAll(v) with v != 0, the as-written Clone reads differently from the original |
| SparseStorage.Storage.constructor | pkg/grid/storage.go:22-29 | the extents and the default, no explicit key, every cell the default |
| SparseStorage.Storage.Get | pkg/grid/storage.go:50-57 | the stored value when the key exists, the default otherwise |
| SparseStorage.Storage.Set | pkg/grid/storage.go:60-63 | the value is always stored, even the default; cell (i, j) becomes v and nothing else changes |
| SparseStorage.Storage.SetAll | pkg/grid/storage.go:66-69 | the default becomes v and every key is dropped |
| SparseStorage.Storage.EqualsError | pkg/grid/storage.go:79-142 | no error exactly when extents and explicit keys with their values agree; a dimension difference comes first and names rows before cols |
| SparseStorage.Storage.Equals | pkg/grid/storage.go:73-75 | equal exactly when EqualsError finds nothing |
| SparseStorage.Storage.Clone | pkg/grid/storage.go:145-152 | same extents, default, keys and cells |
| SparseStorage.ReportedMismatch | pkg/grid/storage.go:97-113 | 3 in the receiver against 555 in the argument at (1, 3) is reported as "0 vs 555" |
| CellsStorer.Storer.Matrix | pkg/grid/cellsstorer.go:11-23 | either storer stands for a rows x cols matrix |
| CellsStorer.Storer.Get | pkg/grid/cellsstorer.go:11-23 | the dispatched Get reads cell (i, j) of the matrix |
| CellsStorer.Storer.Set | pkg/grid/dok.go:59-66 | the dispatched Set writes cell (i, j) and nothing else; a dok keeps its default and drops the key when v is the default, stores it otherwise; the clone then reads 0 or v there |
| CellsStorer.Storer.SetAll | pkg/grid/dok.go:69-72 | the dispatched SetAll fills the matrix; a dok's default becomes v and it holds no key, so its clone is all 0 |
| CellsStorer.Storer.ClonedMatrix | pkg/grid/dok.go:174-181 | what a clone holds: a dense storer's cells; a dok's explicit keys, with 0 at every other cell; the storer's own cells whenever the default is 0 |
| CellsStorer.Storer.Clone | pkg/grid/cellsstorer.go:11-23 | a fresh storer of the same kind, extents and explicit keys holding ClonedMatrix, whose own clone changes nothing |
| CellsStorer.Storer.CloneEmpty | pkg/grid/cellsstorer.go:11-23 | a fresh storer of the same kind and extents, every cell DEAD |
| CellsStorer.Factory | pkg/grid/cellsstorer.go:26-34 | "dense" (any case) gives an all-DEAD dense storer of the requested extents, "dok" gives an all-DEAD dok with default DEAD (= 0), and any other kind is the error |
| CellsStorer.CellByCellError | pkg/grid/dok.go:156-171 | no error exactly when extents and every cell agree; dimensions first, rows before cols, then the first differing cell in row-major order with both values |
| CellsStorer.EqualsError | pkg/grid/dense.go:63-65 | the receiver's kind decides: cell by cell for a dense storer, by explicit keys for a dok; no error exactly when those agree; differing extents give the dimensions error, and a dense receiver reports the first differing cell |
| CellsStorer.EqualValuesError | pkg/grid/dense.go:76-78 | cell by cell for either kind: the dimensions error, or the first differing cell in row-major order |
| CellsStorer.Equals | pkg/grid/dense.go:57-59 | equal exactly when EqualsError finds nothing |
| CellsStorer.EqualValues | pkg/grid/dok.go:149-151 | a dense storer reports equal values; a dok reports the opposite, as written |
| Grids.Grid.View | pkg/grid/grid.go:11-19 | a grid stands for a well-formed board |
| Grids.Grid.ClonedView | pkg/grid/grid.go:156-159 | what a clone of the grid holds: the same extents and limits over the storer's ClonedMatrix; the grid's own view unless it is a dok with a default other than 0 |
| Grids.Grid.constructor | pkg/grid/grid.go:182-191 | newGridFromCellsStorer keeps a fresh clone of the storer, never the caller's: the source's ClonedMatrix, with each limit set from its text |
| Grids.Grid.SetLimitRows | pkg/grid/grid.go:63-73 | the row flag is set and the column flag kept |
| Grids.Grid.SetLimitCols | pkg/grid/grid.go:93-103 | the column flag is set and the row flag kept |
| Grids.Grid.LimitRowsString | pkg/grid/grid.go:52-57 | "limited" exactly when the rows are limited, else "unlimited" |
| Grids.Grid.LimitColsString | pkg/grid/grid.go:82-87 | "limited" exactly when the columns are limited, else "unlimited" |
| Grids.Grid.Get | pkg/grid/grid.go:107-114 | VOID off a limited axis; an in-range read is the stored cell; otherwise the normalised cell |
| Grids.Grid.Set | pkg/grid/grid.go:117-121 | the board after the normalised write; a dok keeps its default and drops or stores the normalised key; ClonedView takes 0 there when v is a dok's default, v otherwise |
| Grids.Grid.SetAll | pkg/grid/grid.go:124-126 | every cell takes the value; a dok's default becomes the value with no key, so ClonedView is all 0 |
| Grids.Grid.Equals | pkg/grid/grid.go:130-132 | equal exactly when EqualsError finds nothing |
| Grids.Grid.EqualsError | pkg/grid/grid.go:136-153 | cells first ("values" compares cell by cell, any other mode by the storer's EqualsError), whose error is returned as it is (the dimensions error, or the first differing cell when compared cell by cell), then the row limit, then the column limit |
| Grids.Grid.Clone | pkg/grid/grid.go:156-159 | a fresh grid holding ClonedView: the storer is cloned twice and the second clone changes nothing |
| Grids.Grid.CloneEmpty | pkg/grid/grid.go:162-165 | a fresh grid with the same limits and extents, every cell DEAD |
| Grids.NewGrid | pkg/grid/grid.go:22-25 | an all-DEAD grid of the named storer kind with the requested extents and limits; an unknown kind is the factory's error |
| Automaton.ParseSide | pkg/gol/gol.go:94-101 | the digit loop builds exactly ParseDigits' set, or stops at its error |
| Automaton.Gol.InitWithGrid | pkg/gol/gol.go:57-67 | the attributes are set, the grid is adopted, the rule sets are parsed from the text, and processes is CPUS |
| Automaton.Gol.SetRules | pkg/gol/gol.go:89-111 | the text is kept as given, so Rules() returns it; the sets are the parsed rule; a bad text is its parse error; no other attribute changes |
| Automaton.Gol.NeighborhoodTypeString | pkg/gol/gol.go:124-126 | the display name of the neighbourhood code |
| Automaton.Gol.SetProcesses | pkg/gol/spawning.go:40-42 | processes is set and nothing else changes |
| Automaton.Gol.SetThreadPoolSize | pkg/gol/spawning.go:53-55 | the pool size is set and nothing else changes |
| Automaton.Gol.Get | pkg/gol/gol.go:150-152 | the grid's Get |
| Automaton.Gol.NeighborValues | pkg/gol/spawning.go:176 | neighborhoodFunc applied to the automaton gives the chosen neighbourhood's values |
| Automaton.Gol.Set | pkg/gol/gol.go:155-157 | the grid's Set, with its dok key, default and ClonedView facts |
| Automaton.Gol.SetAll | pkg/gol/gol.go:160-162 | the grid's SetAll, with its dok default and ClonedView facts |
| Automaton.Gol.Equals | pkg/gol/gol.go:165-175 | equal exactly when name, description, generation, rules, neighbourhood type, processes and grids all agree |
| Automaton.Gol.GridEquals | pkg/gol/gol.go:179-182 | only the grids are compared |
| Automaton.Gol.EqualsError | pkg/gol/gol.go:186-214 | attributes in the order name, description, rules, generation, neighbourhood, processes, then the grid's error as Grid.EqualsError gives it (cells, then row limit, then column limit); nil exactly when Equals holds |
| Automaton.Gol.Clone | pkg/gol/gol.go:217-222 | a fresh automaton with the same attributes over the grid's ClonedView; it Equals the original, since a dok's Equals compares explicit keys only |
| Automaton.Init | pkg/gol/gol.go:44-54 | a fresh automaton with an all-DEAD grid of the given extents and limits, the parsed rule and processes CPUS |
| Automaton.NewGol | pkg/gol/gol.go:28-33 | Init with both axes limited and the Moore neighbourhood |
| Spawning.NextCell | pkg/gol/spawning.go:175-195 | the automaton's nextCell is Life.NextCell under its rule and neighbourhood |
| Spawning.CopyWithEmptyGrid | pkg/gol/spawning.go:197-201 | a fresh automaton with the same attributes and generation over an all-DEAD grid of the same shape and limits |
| Spawning.ComputedAfterWrite | pkg/gol/spawning.go:84-85 | writing a cell's value computes it and keeps every other computed cell |
| Spawning.AllComputed | pkg/gol/spawning.go:76-90 | once every cell is computed, the new board is the next generation |
| Spawning.ComputedBeforeNext | pkg/gol/spawning.go:82-87 | one iteration moves the row-major frontier on by one cell |
| Spawning.ComputedBeforeRow | pkg/gol/spawning.go:82-87 | the end of a row is the start of the next |
| Spawning.ComputedBeforeEnd | pkg/gol/spawning.go:76-90 | after the last row the new board is the next generation |
| Spawning.ComputedBeforeFails | pkg/gol/spawning.go:82-87 | a failing nextCell at the frontier is the first invalid cell in row-major order |
| Spawning.ComputedOutsideNext | pkg/gol/spawning.go:142-145 | a finished job takes its cell off the pending set |
| Spawning.Cells | pkg/gol/spawning.go:151-155 | the jobs are exactly the in-range cells |
| Spawning.ComputedOutsideStart | pkg/gol/spawning.go:151-155 | before any job runs every cell is pending |
| Spawning.ComputedOutsideEnd | pkg/gol/spawning.go:121-161 | with nothing pending the new board is the next generation |
| Spawning.JobFails | pkg/gol/spawning.go:143 | a failing job names a stored cell that is not a status |
| Spawning.Job | pkg/gol/spawning.go:142-145 | one job: nextCell of the frozen board, written into the new grid |
| Spawning.SerialCells | pkg/gol/spawning.go:82-87 | the loops finish exactly when every cell is a status, leaving the next generation; otherwise they stop at the first invalid cell |
| Spawning.SerialNextGeneration | pkg/gol/spawning.go:76-90 | a fresh automaton one generation on, with the next board and the same attributes; the receiver is not changed |
| Spawning.PooledCells | pkg/gol/spawning.go:121-161 | the jobs, in any order, leave the next generation exactly when every cell is a status; otherwise an invalid cell is reported |
| Spawning.ParallelNextGeneration | pkg/gol/spawning.go:121-161 | the same next generation as the serial stepper |
| Spawning.NextGenerationFunc | pkg/gol/spawning.go:163-173 | serial when processes is SERIAL; otherwise one goroutine per cell for ExplosiveThreadPoolSize, else the pool |
| Spawning.Advance | pkg/gol/spawning_test.go:27-34 | every strategy gives the same next generation; only the serial one promises the first invalid cell |
| Spawning.NextGeneration | pkg/gol/spawning.go:70-73 | the next generation by the automaton's strategy, with processes CPUS |
| Spawning.FastForward | pkg/gol/spawning.go:58-65 | from a clone, n generations on: the board is StepN of the grid's ClonedView, the generation grows by n (0 for n <= 0), processes is CPUS after a step and the receiver's otherwise, and the receiver is not changed |
| Patterns.Block | pkg/gol/spawning_test.go:9-18 | a 2x2 block in a limited 4x4 grid |
| Patterns.BlinkerH | pkg/gol/spawning_test.go:20-25 | the horizontal blinker phase on a limited 3x3 grid |
| Patterns.BlinkerV | pkg/gol/spawning_test.go:20-25 | the vertical blinker phase on a limited 3x3 grid |
| Patterns.ConwayNext | pkg/gol/spawning.go:175-195 | under 23/3 a cell survives on 2 or 3 and is born on 3 |
| Patterns.AroundIsCount | pkg/neighborhood/neighborhood.go:14-20 | on a limited board the Moore count is the number of live in-range neighbours |
| Patterns.StepCell | pkg/gol/spawning.go:76-90 | one 23/3 step on a limited board, cell by cell |
| Patterns.StepTo | pkg/gol/spawning.go:76-90 | a board whose every cell 23/3 maps to the target's steps to the target |
| Patterns.BlockIsStill | pkg/gol/spawning_test.go:104-113 | one generation leaves the block as it is |
| Patterns.BlockStaysForever | pkg/gol/spawning_test.go:9-18 | FastForward(n) leaves the block as it is, for every n |
| Patterns.BlinkerTurns | pkg/gol/spawning_test.go:115-137 | the horizontal blinker steps to the vertical one |
| Patterns.BlinkerTurnsBack | pkg/gol/spawning_test.go:115-137 | the vertical blinker steps back to the horizontal one |
| Patterns.BlinkerOscillates | pkg/gol/spawning_test.go:115-137 | the phases differ, and they alternate for ever |
| Patterns.FlatBlinkers | src/gol/gol_test.go:49-71 | the first revision's flat 3x3 slices are the two blinker phases |
| Changing.Target | pkg/gol/changing.go:25 | a change lands on exactly one stored cell, which is in range |
| Changing.Indices | pkg/gol/changing.go:37 | the indices of a list of length n |
| Changing.AllFromNext | pkg/gol/changing.go:39 | one more write keeps every cell explained by the writes done so far |
| Changing.LastWriteFrom | pkg/gol/changing.go:24-26 | the last write to a cell is one of the changes landing on it |
| Changing.ListOrderIsSomeOrder | pkg/gol/changing.go:22-28 | the serial result is one of the orders the goroutines may produce |
| Changing.LastWriteDistinct | pkg/gol/changing.go:24-26 | with distinct targets, the one change landing on a cell is its last write |
| Changing.SomeOrderIsListOrder | pkg/gol/changing.go:30-46 | with distinct targets, every order gives the serial result |
| Changing.SetEach | pkg/gol/changing.go:24-26 | the Set loop applies the changes in list order |
| Changing.SerialChangeCells | pkg/gol/changing.go:22-28 | a fresh clone with the attributes kept and the changes applied in list order to the grid's ClonedView; the receiver is not changed |
| Changing.SetAny | pkg/gol/changing.go:37-43 | the writes in any order leave each cell at some change landing on it, or as it was |
| Changing.ParallelChangeCells | pkg/gol/changing.go:30-46 | a fresh clone whose cells are explained by the changes, in some order, applied to the grid's ClonedView |
| Changing.ChangeCells | pkg/gol/changing.go:12-20 | an empty list returns the receiver itself; otherwise a clone: SERIAL applies the list in order to the grid's ClonedView, any other processes value gives some order |
| EarlyGrid.MulMonotonic | src/gol/grid.go:50-52 | multiplying by a non-negative factor keeps order |
| EarlyGrid.Pos | src/gol/grid.go:50-52 | getPos of an in-range cell lies below rows*cols, and the row and column are recovered from it |
| EarlyGrid.Cell | src/gol/grid.go:50-52 | every position below rows*cols is getPos of one in-range cell |
| EarlyGrid.ToBoard | src/gol/grid.go:54-60 | the flat slice read as a limited board: cell (i, j) is the value at getPos(i, j) |
| EarlyGrid.ToBoardInjective | src/gol/grid.go:50-52 | two slices give the same board exactly when they are equal |
| EarlyGrid.ToBoardWrite | src/gol/grid.go:62-65 | writing position p of the slice is Set at the cell of p |
| EarlyGrid.DeadBoard | src/gol/grid.go:24-33 | every cell is DEAD |
| EarlyGrid.EqualsOutcomeSameExtents | src/gol/grid.go:85-95 | with the same extents, equals answers board equality |
| EarlyGrid.EqualsAsWrittenIgnoresCols | src/gol/grid.go:86 | a 2x2 grid of DEAD cells is reported equal to a 2x3 one |
| EarlyGrid.Grid.constructor | src/gol/grid.go:24-33 | rows*cols cells, all DEAD |
| EarlyGrid.Grid.Get | src/gol/grid.go:54-60 | VOID when i or j is out of range, the stored cell otherwise |
| EarlyGrid.Grid.Set | src/gol/grid.go:62-65 | writes position i*cols + j without a bounds check (only the position must be in the slice); in range, it is the board's Set |
| EarlyGrid.Grid.Neighbors | src/gol/grid.go:67-73 | the eight Moore values in fixed order |
| EarlyGrid.Grid.AliveNeighborsCount | src/gol/grid.go:75-83 | the live Moore neighbours, between 0 and 8 |
| EarlyGrid.Grid.EqualsAsWritten | src/gol/grid.go:85-95 | as written: rows compared, cols not, then the flat slices; a difference within the argument's slice gives false, and it panics when the argument's slice is shorter and agrees on all of its length |
| EarlyGrid.Grid.Equals | src/gol/grid.go:85-95 | as intended: equal exactly when the boards are equal |
| EarlyGrid.Grid.Clone | src/gol/grid.go:97-107 | a fresh slice with identical rows, cols and cells |
| EarlyGol.StepCell | src/gol/gol.go:31-52 | the 23/3 switch is Life.NextCell under Conway's rule on the Moore neighbourhood; any other status is the panic |
| EarlyGol.StepCells | src/gol/gol.go:29-53 | the loops finish exactly when every cell is a status, leaving Life.Step; otherwise they stop at the first invalid cell |
| EarlyGol.Gol.constructor | src/gol/gol.go:10-15 | an all-DEAD grid at generation 0 |
| EarlyGol.Gol.Clone | src/gol/gol.go:70-75 | a fresh grid with the same board and generation |
| EarlyGol.Gol.NextGeneration | src/gol/gol.go:26-56 | a fresh automaton with Life.Step under 23/3 and generation + 1; the receiver is not changed; an invalid status fails at the first such cell |
| EarlyGol.Gol.Equals | src/gol/gol.go:59-61 | as written: the grid's equals (its panic is None), then equal generations; on grids of the same extents, equal boards and equal generations |
| EarlyGol.Gol.GridEquals | src/gol/gol.go:65-67 | as written: the grid's equals alone; on grids of the same extents, equal boards |
| EarlyGol.Gol.EqualsIntended | src/gol/gol.go:59-61 | as intended: equal boards and equal generations |
| EarlyGol.Gol.GridEqualsIntended | src/gol/gol.go:65-67 | as intended: equal boards, whatever the generations |

## Left out

- The goroutine plumbing is left out: `sync.WaitGroup`, the job channel, and `setRuntimeProcs`/`runtime.GOMAXPROCS` (pkg/gol/spawning.go:203-211). The parallel steppers are modelled as their jobs run in any order.
- The explosive stepper (one goroutine per cell) is not a separate method. Its jobs are the pooled stepper's jobs, so `Spawning.Advance` runs the pooled stepper for it.
- `sync.Map` thread safety in the dok and the storage is not modelled. Both are plain maps.
- `Randomize`, `NewRandomGrid`, `NewRandomGol` and `randomize` are left out: they draw from `math/rand`.
- `DbgStdout` and all file input, output and rendering are left out: they are I/O.
- Trivial accessors are fields of the classes and have no members of their own: `Name`, `Description`, `Generation`, `Rows`, `Cols`, `LimitRows`, `LimitCols`, `DefaultValue`, `Processes`, `ThreadPoolSize`.
- `assertIndexes` panics and Go's slice-bounds panics are preconditions.
- The panics of `SetRules` on a bad rule and of `GetFunc` on an unknown code are left out:
  - `Automaton.Gol.InitWithGrid`, `Automaton.Init` and `Automaton.NewGol` require a rule text that parses and a known neighbourhood code.
  - `Automaton.Gol.SetRules` reports the parse error. On that path the stored text and the partly built sets are not otherwise constrained.
- `Spawning.NextCell` and the steppers report an invalid status as an error value rather than a panic.
- Strings are Dafny `seq<char>`. `strings.ToLower` is modelled on ASCII letters only (`CellsStorer.ToLower`).
- A change whose inner slice has fewer than three ints would panic. The model's `Life.Change` always has three fields.
- `Automaton.Gol.Equals`: the dok `EqualsError` panics on a dense argument of the same extents, at its type assertion, so `CanCompare` excludes that case.
- `Automaton.Gol.EqualsError` requires `CanCompare`: the same type-assertion panic, reached once every attribute agrees.
- `Automaton.Gol.GridEquals` requires `Comparable`: a dok grid against a dense grid of the same extents panics at the same type assertion.
- `Grids.Grid.Equals` requires `Comparable` outside the "values" mode, for that panic.
- `Grids.Grid.EqualsError` requires `Comparable` outside the "values" mode, for that panic.
- `CellsStorer.EqualsError` requires `Comparable`: a dok receiver with a dense argument of the same extents is the panic of `other := o.(*Dok)`.
- `CellsStorer.Equals` requires `Comparable`, for the same panic.
- The package-level `EqualsError` behind `Dense.EqualsError` is not part of this model. Its behaviour is stated from the dense storer's tests, in `CellsStorer.CellByCellError`.
- The ghost `b` parameters name the receiver's current board, or for `FastForward` and the change methods the board of its clone. They carry no run-time data.
- `EarlyGrid.Grid.constructor` requires non-negative extents. Go's `make` panics only when `rows*cols` is negative, so `NewGrid(-1, -1)` builds a one-cell grid the model cannot express.
- `EarlyGol.Gol.constructor` requires non-negative extents, for the same reason.
- An empty unlimited axis makes Go's index normalisation divide by zero, which panics. `Topology.Board.CanRead`, `CanWrite` and `Readable` exclude that case, and the members below require them:
- `Grids.Grid.Get` requires `CanRead`: reading an empty unlimited axis is the division-by-zero panic.
- `Grids.Grid.Set` requires `CanWrite`: writing an empty unlimited axis is the same panic.
- `Automaton.Gol.Get` requires `CanRead`, as `Grids.Grid.Get` does.
- `Automaton.Gol.Set` requires `CanWrite`, as `Grids.Grid.Set` does.
- `Automaton.Gol.NeighborValues` requires `Readable`: a neighbour read on an empty unlimited axis panics.
- `Spawning.NextCell` requires `Readable`, for the same reason.
- `Life.NextCell`, `Life.AliveCount` and the neighbourhood functions on boards are defined on `Readable` boards only.
- Extents are `nat`. Go accepts negative extents, for example `NewDok(-1, 3)`, `NewStorage(-1, 3, 0)`, or `NewDense(-1, -1)` with its one-cell slice. These members exclude them:
- `DenseStorage.Dense.constructor` takes `nat` extents; `NewDense` accepts any pair whose product is not negative.
- `DokStorage.Dok.constructor` takes `nat` extents; `NewDok` accepts any.
- `SparseStorage.Storage.constructor` takes `nat` extents; `NewStorage` accepts any.
- `CellsStorer.Factory` takes `nat` extents and passes them on.
- `Grids.NewGrid` takes `nat` extents and passes them on.
- `Automaton.Init` takes `nat` extents and passes them on.
- `Automaton.NewGol` takes `nat` extents and passes them on.

## Findings

| source | as written | input that shows it | evidently intended | confidence | as-written member | corrected member |
|---|---|---|---|---|---|---|
| src/gol/grid.go:86 | `g.cols != g.cols` compares the receiver's cols with themselves, so the column count is never compared | a 2x2 grid of DEAD cells against a 2x3 grid of DEAD cells: `equals` returns true | `g.cols != other.cols` | high, not executed | EarlyGrid.EqualsAsWrittenIgnoresCols | EarlyGrid.Grid.Equals |
| pkg/grid/dok.go:22-28 | `NewDok` never stores its `defaultValue`, so `Clone`, which builds the copy with `NewDok(rows, cols, dok.defaultValue)`, resets the default to 0 | a 1x1 dok after `SetAll(1)` (no key, default 1): its `Clone` reads 0 at (0, 0) | the default passed is stored, so a clone reads like the original | high, not executed | DokStorage.CloneLosesFill | DokStorage.Dok.CloneKeepingDefault |
