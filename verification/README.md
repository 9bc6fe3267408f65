# Minesweeper solver, modelled in Dafny

This project models the core of a small minesweeper solver:

- the mine field, which lays its mines lazily on the first sweep;
- the solver's picture of the board, a grid of beliefs;
- the solver's frontier of active cells;
- the sweepers that make progress on the frontier;
- the exact-sum constraint problems the solver and its regions hand to a constraint library.

The modules follow the program's files:

- `Mines` (minefield.dfy) is the `MineField` class.
  - Construction checks the configuration, in the source's order.
  - `FillMineField` is the lazy fill. Its random retry loop becomes an arbitrary choice among the indices that loop would accept.
  - `SweepCell` checks the range first. It then lays the mines on the first sweep, explodes on a mine, and otherwise returns the eight-neighbour count. That count is proved equal to a reference count.
- `Cells` (cells.dfy) covers positions, in-bounds neighbours in the source's order, and the list and set helpers.
- `Grid` (grid.dfy) holds the solver's pure queries over a board:
  - `get_adjacent_cells`, `cell_is_valid`, `mines_found` and pruning;
  - the exact-sum problem of the frontier;
  - trial boards;
  - the corner order;
  - a worked scenario from the solver's tests.
- `ExactSum` (exactsum.dfy) is the meaning of the constraint library.
  - `Solutions` is the set of 0/1 assignments meeting every constraint.
  - An enumeration (`Solve`) is proved to list exactly that set, without repetition.
  - The `defaultdict(Counter)` tally both callers run is proved to count, per cell and value, the solutions giving the cell that value.
  - "A single value in the Counter" is proved to mean "every solution agrees".
- `Choices` (choices.dfy) is `itertools.combinations`. Its output is proved to be exactly the k-element subsets of the pool, each as a list without repetitions.
- `Regions` (region.dfy) is the `Region` value: membership, merge with `|`, and `get_cell_values`.
- `Solving` (solver.dfy) is the `Solver` class. Its `grid` and `activeCells` fields are updated in place.
  - Each sweeper is a method whose outcome is `Moved(move)`, `Declined` (the source's `None`) or `Raised(failure)` (an exception escaping).
  - `Sweep` runs the sweepers in order.
  - The class invariant `Valid` says several things:
    - every count on the board is the true count of a safe cell;
    - every value is UNKNOWN, MINE or 0..8;
    - the frontier stays on the board.
  - Every sweeper only turns UNKNOWN cells into MINE or a count (`Refines`).

Some behaviours of the code shape the model:

- **Deduction is global.** `sweep_constraint` solves the whole frontier as one exact-sum problem (solver.py:58-91). `Region` (region.py) is a separate value the solver does not use; both are modelled as written.
- **The opening uses corners only.** It tries three corners in turn and otherwise settles on the fourth (solver.py:45-49).
- **`sweep` never declines.** The random sweeper raises when no UNKNOWN cell is left (solver.py:141), so no sweep ends without a move or an exception.
- **Trying every configuration is switched off.** `try_all_configurations_of_mines_around_cell` is commented out of the sweeper list (solver.py:29). `TryAllConfigurations` is modelled and proved, but `Sweep` does not call it.
- **The try-all test scenario needs an active cell.** The solver's tests for trying every configuration never put the tested count on the frontier (test_solver.py:63-69). The scenario (`Grid.ExampleSettles`, `Solving.TryAllExample`) is therefore stated with (0, 0) in `activeCells`.

## Model

| member | source | states |
|---|---|---|
| Mines.Create | mineField.py:32-48 | Success exactly for a valid configuration; otherwise the error is the first failing check, in the order width, height, negative count, too many mines; a new field is unfilled |
| Mines.MineField.constructor | mineField.py:44-48 | the field keeps its dimensions and mine count and starts unfilled |
| Mines.MineField.FillMineField | mineField.py:50-68 | afterwards the layout is width x height with exactly numberOfMines mines, and the first swept cell is Safe |
| Mines.SafeCellRemains | mineField.py:61-68 | while fewer than width*height-1 mines are laid, a Safe cell other than the first one exists, so the retry loop can always accept an index |
| Mines.IndexInRange | mineField.py:63-65 | for 0 <= index < width*height, index % width is a column and index / width a row in range |
| Mines.IndexOf | mineField.py:63-65 | every in-range cell is reached by exactly one index, row*width+column |
| Mines.PlaceMine | mineField.py:66-67 | placing a mine on a Safe cell adds exactly one to the number of mines |
| Mines.MineField.SweepCell | mineField.py:70-125 | range errors for the row, then the column, before any fill; the field is filled only on the first in-range sweep and never changes after; that sweep never explodes; an explosion exactly on a mine; otherwise the number of mined neighbours |
| Mines.CountAdjacentMines | mineField.py:97-125 | the eight guarded neighbour tests add up to the reference count of mined in-bounds neighbours |
| Mines.EightNeighbourCount | mineField.py:99-123 | the reference count splits into the eight per-direction indicators the source tests |
| Mines.AdjacentMines | mineField.py:97-125 | a swept count is at most 8 |
| Cells.Neighbours | solver.py:156-166 | a cell is listed exactly when it is in bounds, not the centre and at Chebyshev distance 1; at most 8; no repeats |
| Cells.ClosedNeighbourhood | solver.py:151-154 | the cell together with exactly its in-bounds neighbours |
| Cells.AllCellsCount | mineField.py:41-42 | a width x height board has width*height cells |
| Grid.AdjacentCells | solver.py:156-166 | the listed cells are exactly the neighbours whose value passes the selector; at most 8; no repeats |
| Grid.AdjacentFrom | solver.py:158-166 | from the k-th (dr, dc) pair on, exactly the selected neighbours at that offset or later |
| Grid.AdjacentCount | solver.py:188-190 | the length of the neighbour list is the number of selected neighbours |
| Grid.Completable | solver.py:191 | mines <= value <= mines + unknowns exactly when some subset of the unknowns completes the count |
| Grid.CellIsValid | solver.py:184-191 | true for MINE or UNKNOWN; otherwise true exactly when some choice of unknown neighbours, added to the marked ones, makes up the count |
| Grid.OneMineValid | solver.py:184-191 | a count of 1 with exactly one marked neighbour is valid |
| Grid.RowsFrom | solver.py:178-180 | the cells of the remaining rows, each once, in row-major order |
| Grid.MinesFound | solver.py:176-182 | exactly the in-bounds cells marked MINE, in row-major order, no repeats |
| Grid.AnyUnknownNeighbour | solver.py:173 | true exactly when the cell has an UNKNOWN in-bounds neighbour |
| Grid.Pruned | solver.py:168-174 | a subset of the frontier holding exactly the cells with an UNKNOWN neighbour |
| Grid.PruneIdempotent | solver.py:168-174 | pruning twice equals pruning once |
| Grid.Variables | solver.py:67-73 | every variable of the frontier's problem is an UNKNOWN cell on the board |
| Grid.ProblemWellFormed | solver.py:67-73 | every constraint ranges over variables of the problem |
| Grid.ProblemAdd | solver.py:63-72 | one more frontier cell adds its constraint and unknown neighbours when it is a count, and nothing otherwise |
| Grid.Overwrite | solver.py:114-117 | exactly the named cells take the new value; the shape is kept |
| Grid.TrialRestored | solver.py:123-124 | setting the trial cells back to UNKNOWN restores the board the trial started from |
| Grid.AlwaysWithin | solver.py:111-112 | what every valid choice agrees on lies among the UNKNOWN neighbours, which are on the board |
| Grid.EnumeratedVerdict | solver.py:111-129 | intersecting over the combinations that fit gives exactly the unknowns that every valid choice marks, and those that none marks |
| Grid.CornerTarget | solver.py:45-49 | the first UNKNOWN of (0,0), (0,h-1), (w-1,0), otherwise (w-1,h-1) |
| Grid.CornersInTurn | test_solver.py:9-14 | on an unopened board of at least 2 x 2, four corner sweeps open the four corners in turn, each once, and a fifth finds nothing to do |
| Grid.UnknownCells | solver.py:141-146 | exactly the in-bounds UNKNOWN cells: the random sweep's candidates |
| Grid.ExampleSettles | test_solver.py:17-20 | on [[1,1,?],[1,?,?]] the count at (0,0) settles: (1,1) is a mine in every valid choice and no unknown is clear in all of them |
| Grid.ExampleFits | test_solver.py:17-20 | marking (1,1) keeps the counts at (1,0) and (0,1) valid |
| Choices.CombinationsSound | solver.py:113 | every selection has k different elements of the pool |
| Choices.CombinationsComplete | solver.py:113 | every k-element subset of the pool is the set of some selection |
| Choices.TakenStep | solver.py:125-127 | a fitting selection intersects the running results with what it takes and leaves out; a failing one changes nothing |
| Choices.TakenShrinks | solver.py:128-129 | stopping early gives a superset of the full intersection |
| ExactSum.InSpace | solver.py:73 | the search space is exactly the 0/1 assignments to the variables |
| ExactSum.SolveExact | solver.py:74 | the enumeration lists exactly the solutions, none twice |
| ExactSum.AssignmentsComplete | solver.py:73 | the enumeration of 0/1 assignments reaches every assignment |
| ExactSum.AssignmentsDistinct | solver.py:73 | the enumeration of 0/1 assignments repeats none |
| ExactSum.SolutionsSplit | region.py:24-26 | the solutions split into those giving a cell 0 and those giving it 1 |
| ExactSum.ForcedByCounts | solver.py:81-88 | a value is forced exactly when some solution gives it and none gives the other value |
| ExactSum.OccurrencesCount | solver.py:76-77 | over a list without repeats, the occurrence count is the number of solutions giving the cell that value |
| ExactSum.TallyOne | solver.py:76-77 | counting one solution adds one per (cell, value) pair it holds |
| ExactSum.Tally | solver.py:75-77 | each counter entry is the number of solutions giving the cell that value; cells and values are keys exactly when counted |
| ExactSum.CountSolutions | region.py:18-27 | the tally of the problem's solutions: counts are solution counts; a cell is a key exactly when it is a variable and a solution exists |
| ExactSum.TalliedBinary | solver.py:73 | every tallied value is 0 or 1 |
| ExactSum.TallyDecides | solver.py:81-88 | a single-value Counter holding 0 means every solution clears the cell; one holding another value means every solution mines it; both directions |
| ExactSum.CounterShape | solver.py:81-83 | a Counter has the single key 0 exactly when 0 was counted and 1 was not, and the mirror for 1 |
| ExactSum.DecidedForced | solver.py:80-88 | the cells decided from the tally are exactly the variables forced to that value |
| ExactSum.TallySplit | region.py:24-27 | a cell's 0-count and 1-count add up to the number of solutions |
| Regions.NewRegion | region.py:8-10 | membership is exactly membership of the given cells; the constraints are the given list |
| Regions.Union | region.py:15-16 | members of either region; a's constraints followed by b's |
| Regions.UnionRestricts | region.py:15-16 | restricted to a's cells, every solution of a \| b solves a |
| Regions.GetCellValues | region.py:18-27 | fails exactly when a constraint names a cell outside the region, with such a cell (the library's KeyError); otherwise, per cell and value, the number of solutions; each cell's two counts add up to the number of solutions; empty when there is no solution, every cell a key otherwise |
| Solving.NewSolver | solver.py:21-34 | the mine field's checks decide success and which error; on success every cell is UNKNOWN, the frontier is empty and the field unfilled |
| Solving.Solver.constructor | solver.py:27-34 | every cell UNKNOWN, no active cells |
| Solving.Solver.AddActiveCellsAt | solver.py:151-154 | the frontier becomes the old one plus the cell and its in-bounds neighbours; the grid is unchanged |
| Solving.Solver.PruneActiveCells | solver.py:168-174 | the frontier becomes Pruned of the old one; the grid is unchanged |
| Solving.Solver.MarkMine | solver.py:87-88 | the cell alone becomes MINE and the frontier grows around it |
| Solving.Solver.SetValue | solver.py:54 | the cell alone takes the value; the board stays truthful |
| Solving.Solver.ClearCell | solver.py:147-148 | the frontier grows around the cell; the first sweep lays the mines and never explodes; an explosion exactly on a mine leaves the board as it was; otherwise the cell alone shows its true count |
| Solving.WriteKeeps | solver.py:54 | writing MINE or a true count keeps the shape, truthfulness and value range and changes that cell alone |
| Solving.TruthfulLaid | mineField.py:89-91 | laying the mines keeps the board truthful |
| Solving.Solver.BuildProblem | solver.py:61-73 | the constraint list and variable set are those of the frontier's problem |
| Solving.Solver.FrontierTally | solver.py:73-77 | the tally of the frontier's solutions; its decided cells are exactly the determined ones |
| Solving.Solver.SweepConstraint | solver.py:58-91 | declines exactly when no variable is determined, including an empty frontier; otherwise marks exactly the variables that are 1 in every solution, sweeps exactly those that are 0 in every solution, and reports each once; only UNKNOWN cells change; an explosion only on a swept cell that is a mine |
| Solving.Solver.ApplyTallies | solver.py:78-91 | declines exactly when no cell is decided; otherwise every decided cell is marked or swept and listed once |
| Solving.Solver.ApplyDecided | solver.py:80-88 | after the loop every decided cell is handled, or the loop stopped at a swept mine |
| Solving.Solver.ApplyOne | solver.py:81-88 | one cell: swept when its Counter is {0}, marked when it is one other value, otherwise left |
| Solving.Solver.MarkDecided | solver.py:86-88 | the marking so far grows by the cell |
| Solving.Solver.ClearDecided | solver.py:82-85 | the clearing so far grows by the cell, or it explodes exactly on a mine |
| Solving.Solver.TryAllConfigurations | solver.py:94-138 | declines exactly when no frontier count settles or overflows; on a move, marks exactly what every valid choice around a settling count marks and sweeps what none does; a count with too many marked mines raises as combinations does |
| Solving.Solver.TryCell | solver.py:95-110 | declines exactly for a cell that neither settles nor overflows; raises exactly when it overflows; otherwise acts on its verdict |
| Solving.Solver.Settle | solver.py:111-137 | declines exactly when the count does not settle; otherwise marks AlwaysMine and sweeps AlwaysClear |
| Solving.Solver.TryChoices | solver.py:111-129 | the grid is restored, and the results are exactly the unknowns every valid choice marks and those none marks |
| Solving.Solver.TryChoice | solver.py:114-124 | the grid is restored; the result is whether every checked count is valid on the trial board |
| Solving.Solver.WriteAll | solver.py:114-115 | exactly the listed cells take the value |
| Solving.AllValid | solver.py:118-122 | true exactly when every listed cell is valid |
| Solving.Solver.MarkAndClear | solver.py:130-136 | every chosen mine is marked and every chosen clear cell swept, the frontier grows around each; or it stops at a swept mine |
| Solving.Solver.MarkAll | solver.py:131-133 | every chosen mine is marked and the frontier grows around each |
| Solving.Solver.ClearAll | solver.py:134-136 | every chosen cell is swept and the frontier grows around each, or it stops at a swept mine |
| Solving.Solver.SweepCornerCell | solver.py:44-56 | declines, with no change, exactly when the corner target is not UNKNOWN; otherwise sweeps that corner alone, growing the frontier around it |
| Solving.Solver.SweepRandomCell | solver.py:140-149 | never declines; raises exactly when no cell is UNKNOWN; otherwise sweeps one cell that was UNKNOWN and changes no other |
| Solving.Solver.RunSweeper | solver.py:37-38 | what each sweeper's outcome says about the board it started from; a move grows the frontier by exactly the neighbourhoods of the cells it marked or swept |
| Solving.Solver.Sweep | solver.py:36-42 | never declines; after a move the frontier is exactly the pruned union of the old frontier and the neighbourhoods of the cells the move marked or swept; a corner move comes only after deduction is stuck, and a random move only once the corners are done too |
| Solving.TryAllExample | test_solver.py:36-42 | on [[1,1,?],[1,?,?]] with (0,0) active, trying every configuration marks (1,1) and clears nothing |
| Solving.ExampleOutcome | test_solver.py:36-42 | on that board, the only outcome TryAllConfigurations' contract allows is that move |

## Left out

- The `print` of the active cells in `sweep` (solver.py:41) is output only.
- `main.py` is the game driver and statistics. It and the preset board sizes (mineField.py:5-7) are not part of this model.
- The `isinstance` checks of the mine field's constructor (mineField.py:30-31) are enforced by Dafny's types.
- The description strings the sweepers return become the `Move` datatype, which carries the affected cells.
- Randomness is modelled as arbitrary choice, with no claims about distribution:
  - `random.choice` picks any UNKNOWN cell.
  - The `randrange` retry loop picks any acceptable index. The model's loop therefore terminates, which the source's loop only does with probability 1.
- Set iteration order is modelled as arbitrary choice (`:|`). The order of the cells listed in a `ConstraintDeduction` move is therefore not pinned down.
- The constraint library is foreign code. Only its solution set is modelled.
- Solving.Solver.SweepConstraint: the model reads a constraint with no cells as a sum over nothing. The library instead applies such a constraint to every variable. This differs only for a swept frontier count with no UNKNOWN neighbour, and `sweep` prunes those after every move.
- Regions.GetCellValues: the model reads a constraint with an empty cell list as a sum over nothing, whereas the library applies such a constraint to every variable of the problem.
- The source stores the grid as a list of lists that callers may alias; tests do so. The model keeps it as a value in a field, so aliasing is not modelled.
- Solving.Solver.Sweep: its contract does not repeat each sweeper's effects on the board, since the sweepers' own contracts state those. It states the order, the new frontier and when each kind of move can happen; after an exception it says nothing about the frontier.
- The mocked mine field of the solver's tests is not modelled. The test scenarios are stated against the real mine field's contract.
