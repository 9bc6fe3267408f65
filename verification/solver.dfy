/**
 * The solver: its board of beliefs (UNKNOWN, MINE or a swept count per
 * cell), its frontier of active cells, and the sweepers that make progress
 * on them, each either making a move, declining (the source's None), or
 * letting an exception escape.
 */
module Solving {
  import opened Wrappers
  import opened Cells
  import opened Mines
  import opened ExactSum
  import opened Choices
  import opened Grid

  /** What a sweeper reports when it makes progress; the source describes it in a string. */
  datatype Move =
    | ConstraintDeduction(withMines: seq<Cell>, withoutMines: seq<Cell>)
    | CornerSwept(at: Cell, count: int)
    | AroundCell(centre: Cell, marked: set<Cell>, swept: set<Cell>)
    | RandomSwept(at: Cell)

  /**
   * The exceptions a sweeper lets escape: ExplosionException from the mine
   * field, IndexError from random.choice of an empty list, ValueError from
   * combinations with a negative size.
   */
  datatype Failure = Exploded(at: Cell) | EmptyChoice | NegativeSampleSize

  datatype Outcome = Moved(move: Move) | Declined | Raised(failure: Failure)

  /** The cells a move adds to the frontier: those it marked or swept, with their in-bounds neighbours. */
  function Grown(width: int, height: int, m: Move): set<Cell> {
    match m
    case ConstraintDeduction(withMines, withoutMines) => Neighbourhoods(width, height, SetOf(withMines) + SetOf(withoutMines))
    case CornerSwept(at, _) => ClosedNeighbourhood(width, height, at)
    case AroundCell(_, marked, swept) => Neighbourhoods(width, height, marked + swept)
    case RandomSwept(at) => ClosedNeighbourhood(width, height, at)
  }

  /** A move on one cell grows the frontier by that cell's closed neighbourhood. */
  lemma GrownByOne(width: int, height: int, m: Move)
    requires m.CornerSwept? || m.RandomSwept?
    ensures Grown(width, height, m) == ClosedNeighbourhood(width, height, m.at)
  {
  }

  datatype Sweeper = ByConstraint | ByCorner | ByRandomCell

  /** The sweepers sweep tries, in order; trying every configuration is switched off. */
  const Sweepers: seq<Sweeper> := [ByConstraint, ByCorner, ByRandomCell]

  /** Every count on the board is the true number of mines around a safe cell. */
  ghost predicate Truthful(g: Board, width: int, height: int, field: Option<Layout>) {
    forall c {:trigger Value(g, c)} | InBounds(width, height, c) && IsRevealed(Value(g, c)) ::
      && field.Some?
      && !IsMineIn(field.value, c)
      && Value(g, c) == AdjacentMines(field.value, width, height, c.column, c.row)
  }

  /**
   * `after` is `before` with the cells of `cleared` set to their true counts
   * and the other cells of `mines` set to MINE.
   */
  ghost predicate Marked(before: Board, after: Board, width: int, height: int,
                         mines: set<Cell>, cleared: set<Cell>, field: Option<Layout>) {
    && (cleared != {} ==> field.Some?)
    && forall d {:trigger Value(after, d)} | InBounds(width, height, d) ::
         Value(after, d) ==
           if d in cleared then AdjacentMines(field.value, width, height, d.column, d.row)
           else if d in mines then MINE
           else Value(before, d)
  }

  /** The board with the one cell c set to v. */
  function Write(g: Board, c: Cell, v: int): (r: Board)
    requires 0 <= c.row < |g| && 0 <= c.column < |g[c.row]|
  {
    g[c.row := g[c.row][c.column := v]]
  }

  /** Writing v at one more cell extends an overwrite with v by that cell. */
  lemma OverwriteStep(g: Board, width: int, height: int, cells: set<Cell>, c: Cell, v: int)
    requires Shaped(g, width, height) && InBounds(width, height, c)
    ensures Write(Overwrite(g, cells, v), c, v) == Overwrite(g, cells + {c}, v)
  {
    SameBoard(Write(Overwrite(g, cells, v), c, v), Overwrite(g, cells + {c}, v), width, height);
  }

  /**
   * Writing MINE, or the true count of a safe cell, at an in-bounds cell keeps
   * the board's shape, its counts truthful and its values in range, and
   * changes that cell alone.
   */
  lemma WriteKeeps(g: Board, width: int, height: int, field: Option<Layout>, c: Cell, v: int)
    requires Shaped(g, width, height) && Truthful(g, width, height, field) && WellValued(g, width, height)
    requires InBounds(width, height, c)
    requires v == MINE || (field.Some? && IsLayout(field.value, width, height) && !IsMineIn(field.value, c) &&
                           v == AdjacentMines(field.value, width, height, c.column, c.row))
    ensures var after := Write(g, c, v);
            && Shaped(after, width, height)
            && Truthful(after, width, height, field)
            && WellValued(after, width, height)
            && Updated(g, after, width, height, c, v)
  {
    var after := Write(g, c, v);
    assert forall d | InBounds(width, height, d) :: Value(after, d) == if d == c then v else Value(g, d);
  }

  /** Laying the mines when there were none keeps the board truthful: nothing was revealed before. */
  lemma TruthfulLaid(g: Board, width: int, height: int, before: Option<Layout>, after: Option<Layout>)
    requires Truthful(g, width, height, before)
    requires before.None? || after == before
    ensures Truthful(g, width, height, after)
  {
  }

  /** Marking nothing leaves the board as it was. */
  lemma MarkedNothing(g: Board, width: int, height: int, field: Option<Layout>)
    ensures Marked(g, g, width, height, {}, {}, field)
  {
  }

  /** One more mine marked at c, which was not cleared. */
  lemma MarkedMine(before: Board, middle: Board, after: Board, width: int, height: int,
                   mines: set<Cell>, cleared: set<Cell>, field: Option<Layout>, c: Cell)
    requires Marked(before, middle, width, height, mines, cleared, field)
    requires Updated(middle, after, width, height, c, MINE) && c !in cleared
    ensures Marked(before, after, width, height, mines + {c}, cleared, field)
  {
  }

  /** One more cell c cleared, showing its true count. */
  lemma MarkedClear(before: Board, middle: Board, after: Board, width: int, height: int,
                    mines: set<Cell>, cleared: set<Cell>, field: Option<Layout>, c: Cell)
    requires Marked(before, middle, width, height, mines, cleared, field)
    requires field.Some? && Updated(middle, after, width, height, c, AdjacentMines(field.value, width, height, c.column, c.row))
    ensures Marked(before, after, width, height, mines, cleared + {c}, field)
  {
    forall d | InBounds(width, height, d)
      ensures Value(after, d) ==
                if d in cleared + {c} then AdjacentMines(field.value, width, height, d.column, d.row)
                else if d in mines then MINE
                else Value(before, d)
    {
      if d != c {
        assert Value(after, d) == Value(middle, d);
      }
    }
  }

  /** A board that marks nothing is the board it started from. */
  lemma MarkedSame(before: Board, after: Board, width: int, height: int, field: Option<Layout>)
    requires Shaped(before, width, height) && Shaped(after, width, height)
    requires Marked(before, after, width, height, {}, {}, field)
    ensures after == before
  {
    SameBoard(after, before, width, height);
  }

  /** Writing MINE or a count over an UNKNOWN of the starting board keeps the refinement. */
  lemma RefinesStep(before: Board, middle: Board, after: Board, width: int, height: int, c: Cell, v: int)
    requires Refines(before, middle, width, height)
    requires Updated(middle, after, width, height, c, v)
    requires IsUnknown(Value(before, c)) && (IsMine(v) || 0 <= v <= 8)
    ensures Refines(before, after, width, height)
  {
  }

  /** A variable of the frontier's problem sits next to a swept count, so the mines have been laid. */
  lemma VariableLaid(g: Board, width: int, height: int, active: set<Cell>, field: Option<Layout>, d: Cell)
    requires Truthful(g, width, height, field)
    requires forall c | c in active :: InBounds(width, height, c)
    requires d in Variables(g, width, height, active)
    ensures field.Some?
  {
    var c :| c in active && IsRevealed(Value(g, c)) && d in AdjacentCells(g, width, height, c.column, c.row, IsUnknown);
  }

  /** A frontier cell that is not a swept count adds nothing to the problem. */
  lemma ProblemSkips(g: Board, width: int, height: int, seen: set<Cell>, c: Cell)
    requires !IsRevealed(Value(g, c))
    ensures Constraints(g, width, height, seen + {c}) == Constraints(g, width, height, seen)
    ensures Variables(g, width, height, seen + {c}) == Variables(g, width, height, seen)
  {
    ProblemAdd(g, width, height, seen, c);
  }

  /** A swept count adds its constraint, as the source builds it, and its unknown neighbours. */
  lemma ProblemGrows(g: Board, width: int, height: int, seen: set<Cell>, c: Cell,
                     cs: seq<Constraint>, constraint: Constraint, unknowns: seq<Cell>)
    requires IsRevealed(Value(g, c)) && InBounds(width, height, c) && Shaped(g, width, height)
    requires unknowns == AdjacentCells(g, width, height, c.column, c.row, IsUnknown)
    requires constraint == Constraint(g[c.row][c.column] - |AdjacentCells(g, width, height, c.column, c.row, IsMine)|, unknowns)
    requires SetOf(cs) == Constraints(g, width, height, seen)
    ensures SetOf(cs + [constraint]) == Constraints(g, width, height, seen + {c})
    ensures Variables(g, width, height, seen + {c}) == Variables(g, width, height, seen) + SetOf(unknowns)
  {
    ProblemAdd(g, width, height, seen, c);
    assert constraint == ConstraintAt(g, width, height, c);
    assert SetOf(cs + [constraint]) == SetOf(cs) + {constraint};
  }

  /** Moving one cell from `pending` to `done` keeps them complementary within `keys`. */
  lemma DoneStep<T>(keys: set<T>, done: set<T>, pending: set<T>, x: T)
    requires pending <= keys && done == keys - pending && x in pending
    ensures pending - {x} <= keys && done + {x} == keys - (pending - {x})
  {
  }

  /** The decided cells among `done`, as one more cell is done. */
  lemma DecidedStep(counts: map<Cell, Counter>, done: set<Cell>, cell: Cell, b: int)
    ensures cell in Decided(counts, b) ==> (done + {cell}) * Decided(counts, b) == done * Decided(counts, b) + {cell}
    ensures cell !in Decided(counts, b) ==> (done + {cell}) * Decided(counts, b) == done * Decided(counts, b)
  {
  }

  /** Once every key is done, the decided cells among them are all the decided cells. */
  lemma DecidedAll(counts: map<Cell, Counter>, done: set<Cell>, b: int)
    requires done == counts.Keys
    ensures done * Decided(counts, b) == Decided(counts, b)
  {
  }

  lemma SetOfNonEmpty<T>(s: seq<T>)
    requires s != []
    ensures SetOf(s) != {}
  {
    assert s[0] in SetOf(s);
  }

  /** The frontier grows by the closed neighbourhood of one more marked or cleared cell. */
  lemma FrontierStep(width: int, height: int, a0: set<Cell>, active: set<Cell>, mines: set<Cell>, cleared: set<Cell>, c: Cell)
    requires active == a0 + Neighbourhoods(width, height, mines + cleared)
    ensures active + ClosedNeighbourhood(width, height, c) == a0 + Neighbourhoods(width, height, (mines + {c}) + cleared)
    ensures active + ClosedNeighbourhood(width, height, c) == a0 + Neighbourhoods(width, height, mines + (cleared + {c}))
  {
    NeighbourhoodsAdd(width, height, mines + cleared, c);
    assert (mines + {c}) + cleared == (mines + cleared) + {c};
    assert mines + (cleared + {c}) == (mines + cleared) + {c};
  }

  /** cell_is_valid of each of `cells` in turn, stopping at the first that fails. */
  method AllValid(g: Board, width: int, height: int, cells: seq<Cell>) returns (valid: bool)
    ensures valid <==> forall d | d in cells :: CellIsValid(g, width, height, d.row, d.column)
  {
    valid := true;
    for j := 0 to |cells|
      invariant forall l | 0 <= l < j :: CellIsValid(g, width, height, cells[l].row, cells[l].column)
    {
      if !CellIsValid(g, width, height, cells[j].row, cells[j].column) {
        valid := false;
        break;
      }
      ValidPrefix(g, width, height, cells, j);
    }
  }

  lemma ValidPrefix(g: Board, width: int, height: int, cells: seq<Cell>, j: int)
    requires 0 <= j < |cells|
    requires forall l | 0 <= l < j :: CellIsValid(g, width, height, cells[l].row, cells[l].column)
    requires CellIsValid(g, width, height, cells[j].row, cells[j].column)
    ensures forall l | 0 <= l < j + 1 :: CellIsValid(g, width, height, cells[l].row, cells[l].column)
  {
  }

  /**
   * Solver(width, height, number_of_mines): the mine field's checks reject a
   * bad configuration; otherwise every cell starts UNKNOWN and the frontier
   * empty.
   */
  method NewSolver(width: int, height: int, numberOfMines: int) returns (r: Result<Solver, ConfigError>)
    ensures r.Success? <==> ValidConfig(width, height, numberOfMines)
    ensures r.Failure? ==> r.error == (if width <= 0 then NonPositiveWidth
                                       else if height <= 0 then NonPositiveHeight
                                       else if numberOfMines < 0 then NegativeMineCount
                                       else TooManyMines)
    ensures r.Success? ==>
              && fresh(r.value) && fresh(r.value.mineField) && r.value.Valid()
              && r.value.width == width && r.value.height == height && r.value.numberOfMines == numberOfMines
              && r.value.mineField.field == None
              && (forall c | InBounds(width, height, c) :: IsUnknown(Value(r.value.grid, c)))
              && r.value.activeCells == {}
  {
    var field := Create(width, height, numberOfMines);
    if field.Failure? {
      return Failure(field.error);
    }
    var solver := new Solver(field.value);
    return Success(solver);
  }

  class Solver {
    const width: int
    const height: int
    const numberOfMines: int
    const mineField: MineField
    var grid: Board
    var activeCells: set<Cell>

    ghost predicate Valid()
      reads this, mineField
    {
      && mineField.Valid()
      && mineField.width == width && mineField.height == height && mineField.numberOfMines == numberOfMines
      && Shaped(grid, width, height)
      && Truthful(grid, width, height, mineField.field)
      && WellValued(grid, width, height)
      && (forall c | c in activeCells :: InBounds(width, height, c))
    }

    /** A solver over a fresh mine field: every cell UNKNOWN, no active cells. */
    constructor (mineField: MineField)
      requires mineField.Valid() && mineField.field == None
      ensures Valid() && this.mineField == mineField
      ensures width == mineField.width && height == mineField.height && numberOfMines == mineField.numberOfMines
      ensures forall c | InBounds(width, height, c) :: IsUnknown(Value(grid, c))
      ensures activeCells == {}
    {
      width := mineField.width;
      height := mineField.height;
      numberOfMines := mineField.numberOfMines;
      this.mineField := mineField;
      grid := seq(mineField.height, _ => seq(mineField.width, _ => UNKNOWN));
      activeCells := {};
    }

    /** Grow the frontier by (column, row) and its in-bounds neighbours. */
    method AddActiveCellsAt(column: int, row: int)
      requires Valid() && InBounds(width, height, Cell(column, row))
      modifies this
      ensures Valid() && grid == old(grid)
      ensures activeCells == old(activeCells) + ClosedNeighbourhood(width, height, Cell(column, row))
    {
      activeCells := activeCells + {Cell(column, row)};
      var adjacent := AdjacentCells(grid, width, height, column, row, AnyValue);
      assert {Cell(column, row)} + SetOf(adjacent) == ClosedNeighbourhood(width, height, Cell(column, row));
      activeCells := activeCells + SetOf(adjacent);
    }

    /** Keep only the active cells that still have an UNKNOWN neighbour. */
    method PruneActiveCells()
      requires Valid()
      modifies this
      ensures Valid() && grid == old(grid)
      ensures activeCells == Pruned(grid, width, height, old(activeCells))
    {
      activeCells := Pruned(grid, width, height, activeCells);
    }

    /** add_active_cells_at(c), then grid[row][column] = MINE. */
    method MarkMine(c: Cell)
      requires Valid() && InBounds(width, height, c)
      modifies this
      ensures Valid()
      ensures Updated(old(grid), grid, width, height, c, MINE)
      ensures activeCells == old(activeCells) + ClosedNeighbourhood(width, height, c)
    {
      AddActiveCellsAt(c.column, c.row);
      SetValue(c, MINE);
    }

    /** grid[row][column] = v, for MINE or the true count of a safe cell. */
    method SetValue(c: Cell, v: int)
      requires Valid() && InBounds(width, height, c)
      requires v == MINE || (mineField.field.Some? && !IsMineIn(mineField.field.value, c) &&
                             v == AdjacentMines(mineField.field.value, width, height, c.column, c.row))
      modifies this
      ensures Valid() && activeCells == old(activeCells)
      ensures Updated(old(grid), grid, width, height, c, v)
    {
      WriteKeeps(grid, width, height, mineField.field, c, v);
      grid := Write(grid, c, v);
    }

    /**
     * add_active_cells_at(c), then grid[row][column] = sweep_cell(column,
     * row): the first sweep lays the mines and never explodes; a later one
     * explodes exactly on a mine, leaving the board as it was.
     */
    method ClearCell(c: Cell) returns (exploded: bool)
      requires Valid() && InBounds(width, height, c)
      modifies this, mineField
      ensures Valid()
      ensures activeCells == old(activeCells) + ClosedNeighbourhood(width, height, c)
      ensures mineField.field.Some?
      ensures old(mineField.field).Some? ==> mineField.field == old(mineField.field)
      ensures old(mineField.field).None? ==> !exploded
      ensures exploded <==> IsMineIn(mineField.field.value, c)
      ensures exploded ==> grid == old(grid)
      ensures !exploded ==> Updated(old(grid), grid, width, height, c,
                                    AdjacentMines(mineField.field.value, width, height, c.column, c.row))
    {
      AddActiveCellsAt(c.column, c.row);
      ghost var before := mineField.field;
      var swept := mineField.SweepCell(c.column, c.row);
      TruthfulLaid(grid, width, height, before, mineField.field);
      if swept.Failure? {
        return true;
      }
      SetValue(c, swept.value);
      return false;
    }

    // -------------------------------------------------------------------------
    // sweep_constraint

    /**
     * The exact-sum problem of the frontier: a constraint per swept count,
     * over its unknown neighbours, and the union of those neighbours.
     */
    method BuildProblem() returns (cs: seq<Constraint>, variables: set<Cell>)
      requires Shaped(grid, width, height) && forall c | c in activeCells :: InBounds(width, height, c)
      ensures SetOf(cs) == Constraints(grid, width, height, activeCells)
      ensures variables == Variables(grid, width, height, activeCells)
    {
      cs, variables := [], {};
      var pending := activeCells;
      ghost var seen: set<Cell> := {};
      while pending != {}
        invariant pending <= activeCells && seen == activeCells - pending
        invariant SetOf(cs) == Constraints(grid, width, height, seen)
        invariant variables == Variables(grid, width, height, seen)
        decreases pending
      {
        var c :| c in pending;
        pending := pending - {c};
        var value := grid[c.row][c.column];
        if value == UNKNOWN || value == MINE {
          ProblemSkips(grid, width, height, seen, c);
          seen := seen + {c};
          continue;
        }
        var unknowns := AdjacentCells(grid, width, height, c.column, c.row, IsUnknown);
        var numberOfMines := |AdjacentCells(grid, width, height, c.column, c.row, IsMine)|;
        var constraint := Constraint(value - numberOfMines, unknowns);
        ProblemGrows(grid, width, height, seen, c, cs, constraint, unknowns);
        cs := cs + [constraint];
        variables := variables + SetOf(unknowns);
        seen := seen + {c};
      }
    }

    /**
     * sweep_constraint: with no frontier, decline; otherwise solve the
     * frontier's exact-sum problem and mark the variables that are 1 in every
     * solution, sweep those that are 0 in every solution, and decline when
     * there are none of either.
     */
    method SweepConstraint() returns (r: Outcome)
      requires Valid()
      modifies this, mineField
      ensures Valid() && Refines(old(grid), grid, width, height)
      ensures mineField.field == old(mineField.field)
      ensures var mines := Determined(old(grid), width, height, old(activeCells), 1);
              var clear := Determined(old(grid), width, height, old(activeCells), 0);
              && (r.Declined? <==> mines == {} && clear == {})
              && (r.Declined? ==> grid == old(grid) && activeCells == old(activeCells))
              && (r.Moved? ==>
                    && r.move.ConstraintDeduction?
                    && Distinct(r.move.withMines) && SetOf(r.move.withMines) == mines
                    && Distinct(r.move.withoutMines) && SetOf(r.move.withoutMines) == clear
                    && Marked(old(grid), grid, width, height, mines, clear, mineField.field)
                    && activeCells == old(activeCells) + Neighbourhoods(width, height, mines + clear))
              && (r.Raised? ==>
                    && r.failure.Exploded? && r.failure.at in clear
                    && mineField.field.Some? && IsMineIn(mineField.field.value, r.failure.at))
    {
      if activeCells == {} {
        assert Variables(grid, width, height, activeCells) == {};
        return Declined;
      }
      var counts := FrontierTally();
      r := ApplyTallies(counts);
    }

    /**
     * Build the frontier's problem, hand it to the solver and count, per
     * variable, the values its solutions give: the cells that get one value
     * only are those every solution agrees on.
     */
    method FrontierTally() returns (counts: map<Cell, Counter>)
      requires Valid()
      ensures Tallies(Variables(grid, width, height, activeCells), Constraints(grid, width, height, activeCells), counts)
      ensures Decided(counts, 0) == Determined(grid, width, height, activeCells, 0)
      ensures Decided(counts, 1) == Determined(grid, width, height, activeCells, 1)
      ensures forall d | d in counts :: InBounds(width, height, d) && IsUnknown(Value(grid, d))
      ensures counts != map[] ==> mineField.field.Some?
    {
      ghost var vars, constraints := Variables(grid, width, height, activeCells), Constraints(grid, width, height, activeCells);
      var cs, variables := BuildProblem();
      var vs := ListOf(variables);
      counts := CountSolutions(vs, cs);
      DecidedForced(vars, constraints, counts, 0);
      DecidedForced(vars, constraints, counts, 1);
      if counts != map[] {
        var d :| d in counts;
        VariableLaid(grid, width, height, activeCells, mineField.field, d);
      }
    }

    /**
     * Act on a tally of the frontier's solutions: each cell whose Counter
     * holds the single value 0 is swept, each whose Counter holds a single
     * other value is marked MINE, and both are added to the frontier.
     */
    method ApplyTallies(counts: map<Cell, Counter>) returns (r: Outcome)
      requires Valid()
      requires forall d | d in counts :: InBounds(width, height, d) && IsUnknown(Value(grid, d))
      requires counts != map[] ==> mineField.field.Some?
      modifies this, mineField
      ensures Valid() && Refines(old(grid), grid, width, height)
      ensures mineField.field == old(mineField.field)
      ensures r.Declined? <==> Decided(counts, 0) == {} && Decided(counts, 1) == {}
      ensures r.Declined? ==> grid == old(grid) && activeCells == old(activeCells)
      ensures r.Moved? ==>
                && r.move.ConstraintDeduction?
                && Distinct(r.move.withMines) && SetOf(r.move.withMines) == Decided(counts, 1)
                && Distinct(r.move.withoutMines) && SetOf(r.move.withoutMines) == Decided(counts, 0)
                && Marked(old(grid), grid, width, height, Decided(counts, 1), Decided(counts, 0), mineField.field)
                && activeCells == old(activeCells) + Neighbourhoods(width, height, Decided(counts, 1) + Decided(counts, 0))
      ensures r.Raised? ==>
                && r.failure.Exploded? && r.failure.at in Decided(counts, 0)
                && mineField.field.Some? && IsMineIn(mineField.field.value, r.failure.at)
    {
      var withMines, withoutMines, exploded := ApplyDecided(counts);
      DecidedAll(counts, counts.Keys, 0);
      DecidedAll(counts, counts.Keys, 1);
      if exploded.Some? {
        return Raised(Exploded(exploded.value));
      }
      if withMines == [] && withoutMines == [] {
        MarkedSame(old(grid), grid, width, height, mineField.field);
        assert Neighbourhoods(width, height, {}) == {};
        return Declined;
      }
      if withMines != [] {
        SetOfNonEmpty(withMines);
      } else {
        SetOfNonEmpty(withoutMines);
      }
      return Moved(ConstraintDeduction(withMines, withoutMines));
    }

    /**
     * The state after the cells of `done` have been handled: the lists hold,
     * each once, the decided cells among them, the board has those marked
     * and swept, and the frontier has grown around them.
     */
    ghost predicate Applied(counts: map<Cell, Counter>, g0: Board, a0: set<Cell>, done: set<Cell>,
                            withMines: seq<Cell>, withoutMines: seq<Cell>)
      reads this, mineField
    {
      && Distinct(withMines) && SetOf(withMines) == done * Decided(counts, 1)
      && Distinct(withoutMines) && SetOf(withoutMines) == done * Decided(counts, 0)
      && Marked(g0, grid, width, height, done * Decided(counts, 1), done * Decided(counts, 0), mineField.field)
      && activeCells == a0 + Neighbourhoods(width, height, done * Decided(counts, 1) + done * Decided(counts, 0))
    }

    /** The loop of ApplyTallies, over the tallied cells in any order, stopping at an explosion. */
    method ApplyDecided(counts: map<Cell, Counter>) returns (withMines: seq<Cell>, withoutMines: seq<Cell>, exploded: Option<Cell>)
      requires Valid()
      requires forall d | d in counts :: InBounds(width, height, d) && IsUnknown(Value(grid, d))
      requires counts != map[] ==> mineField.field.Some?
      modifies this, mineField
      ensures Valid() && Refines(old(grid), grid, width, height)
      ensures mineField.field == old(mineField.field)
      ensures exploded.Some? ==>
                && exploded.value in Decided(counts, 0)
                && mineField.field.Some? && IsMineIn(mineField.field.value, exploded.value)
      ensures exploded.None? ==> Applied(counts, old(grid), old(activeCells), counts.Keys, withMines, withoutMines)
    {
      ghost var g0, a0 := grid, activeCells;
      withMines, withoutMines, exploded := [], [], None;
      var pending := counts.Keys;
      ghost var done: set<Cell> := {};
      MarkedNothing(grid, width, height, mineField.field);
      assert Neighbourhoods(width, height, {} + {}) == {};
      while pending != {}
        invariant pending <= counts.Keys && done == counts.Keys - pending
        invariant Valid() && Refines(g0, grid, width, height)
        invariant mineField.field == old(mineField.field)
        invariant Applied(counts, g0, a0, done, withMines, withoutMines)
        decreases pending
      {
        var cell :| cell in pending;
        DoneStep(counts.Keys, done, pending, cell);
        var boom: bool;
        boom, withMines, withoutMines := ApplyOne(counts, cell, g0, a0, done, withMines, withoutMines);
        if boom {
          exploded := Some(cell);
          return;
        }
        pending := pending - {cell};
        done := done + {cell};
      }
    }

    /**
     * One step of the loop of ApplyTallies: the cell is swept when its
     * Counter holds only 0, marked when it holds only another value, and
     * left alone otherwise; the lists of decided cells grow to match.
     */
    method ApplyOne(counts: map<Cell, Counter>, cell: Cell, ghost g0: Board, ghost a0: set<Cell>, ghost done: set<Cell>,
                    withMines: seq<Cell>, withoutMines: seq<Cell>)
      returns (boom: bool, withMines': seq<Cell>, withoutMines': seq<Cell>)
      requires Valid() && Refines(g0, grid, width, height)
      requires forall d | d in counts :: InBounds(width, height, d) && IsUnknown(Value(g0, d))
      requires mineField.field.Some?
      requires cell in counts && cell !in done
      requires Applied(counts, g0, a0, done, withMines, withoutMines)
      modifies this, mineField
      ensures Valid() && Refines(g0, grid, width, height) && mineField.field == old(mineField.field)
      ensures boom ==> cell in Decided(counts, 0) && mineField.field.Some? && IsMineIn(mineField.field.value, cell)
      ensures !boom ==> Applied(counts, g0, a0, done + {cell}, withMines', withoutMines')
    {
      ghost var mines, cleared := done * Decided(counts, 1), done * Decided(counts, 0);
      DecidedStep(counts, done, cell, 0);
      DecidedStep(counts, done, cell, 1);
      boom, withMines', withoutMines' := false, withMines, withoutMines;
      var values := counts[cell];
      if |values| == 1 {
        if 0 in values {
          assert cell in Decided(counts, 0) && cell !in Decided(counts, 1);
          boom := ClearDecided(cell, g0, a0, mines, cleared);
          DistinctAppend(withoutMines, [cell]);
          SetOfSnoc(withoutMines, cell);
          withoutMines' := withoutMines + [cell];
        } else {
          assert cell in Decided(counts, 1) && cell !in Decided(counts, 0);
          MarkDecided(cell, g0, a0, mines, cleared);
          DistinctAppend(withMines, [cell]);
          SetOfSnoc(withMines, cell);
          withMines' := withMines + [cell];
        }
      } else {
        assert cell !in Decided(counts, 0) && cell !in Decided(counts, 1);
      }
    }

    /** Mark a cell the tally decided holds a mine, extending the marking so far. */
    method MarkDecided(c: Cell, ghost g0: Board, ghost a0: set<Cell>, ghost mines: set<Cell>, ghost cleared: set<Cell>)
      requires Valid() && InBounds(width, height, c) && c !in cleared
      requires Refines(g0, grid, width, height) && IsUnknown(Value(g0, c))
      requires Marked(g0, grid, width, height, mines, cleared, mineField.field)
      requires activeCells == a0 + Neighbourhoods(width, height, mines + cleared)
      modifies this
      ensures Valid() && Refines(g0, grid, width, height)
      ensures Marked(g0, grid, width, height, mines + {c}, cleared, mineField.field)
      ensures activeCells == a0 + Neighbourhoods(width, height, (mines + {c}) + cleared)
    {
      FrontierStep(width, height, a0, activeCells, mines, cleared, c);
      ghost var before := grid;
      MarkMine(c);
      MarkedMine(g0, before, grid, width, height, mines, cleared, mineField.field, c);
      RefinesStep(g0, before, grid, width, height, c, MINE);
    }

    /**
     * Sweep a cell the tally decided is safe, extending the marking so far;
     * the mines are laid already, so the field stays as it is.
     */
    method ClearDecided(c: Cell, ghost g0: Board, ghost a0: set<Cell>, ghost mines: set<Cell>, ghost cleared: set<Cell>)
      returns (exploded: bool)
      requires Valid() && InBounds(width, height, c) && mineField.field.Some?
      requires Refines(g0, grid, width, height) && IsUnknown(Value(g0, c))
      requires Marked(g0, grid, width, height, mines, cleared, mineField.field)
      requires activeCells == a0 + Neighbourhoods(width, height, mines + cleared)
      modifies this, mineField
      ensures Valid() && mineField.field == old(mineField.field)
      ensures activeCells == a0 + Neighbourhoods(width, height, mines + (cleared + {c}))
      ensures exploded <==> IsMineIn(mineField.field.value, c)
      ensures Refines(g0, grid, width, height)
      ensures !exploded ==> Marked(g0, grid, width, height, mines, cleared + {c}, mineField.field)
    {
      FrontierStep(width, height, a0, activeCells, mines, cleared, c);
      ghost var before := grid;
      exploded := ClearCell(c);
      if !exploded {
        MarkedClear(g0, before, grid, width, height, mines, cleared, mineField.field, c);
        RefinesStep(g0, before, grid, width, height, c, AdjacentMines(mineField.field.value, width, height, c.column, c.row));
      }
    }

    // -------------------------------------------------------------------------
    // try_all_configurations_of_mines_around_cell

    /**
     * Try every swept count of the frontier in turn: the first whose unknown
     * neighbours some choice of mines settles (marked in every valid choice,
     * or in none) has those marked and swept; a count needing fewer mines
     * than it already has around it raises, as combinations does.
     */
    method TryAllConfigurations() returns (r: Outcome)
      requires Valid()
      modifies this, mineField
      ensures Valid() && Refines(old(grid), grid, width, height)
      ensures r.Declined? ==> grid == old(grid) && activeCells == old(activeCells)
      ensures r.Declined? ==>
                forall c | c in old(activeCells) :: !Settles(old(grid), width, height, c) && !Overfull(old(grid), width, height, c)
      ensures r == Raised(NegativeSampleSize) ==>
                && grid == old(grid) && activeCells == old(activeCells)
                && exists c | c in old(activeCells) :: Overfull(old(grid), width, height, c)
      ensures r.Moved? ==>
                && r.move.AroundCell?
                && var c := r.move.centre;
                && c in old(activeCells) && Settles(old(grid), width, height, c)
                && r.move.marked == AlwaysMine(old(grid), width, height, c)
                && r.move.swept == AlwaysClear(old(grid), width, height, c)
                && Marked(old(grid), grid, width, height, r.move.marked, r.move.swept, mineField.field)
                && activeCells == old(activeCells) + Neighbourhoods(width, height, r.move.marked + r.move.swept)
      ensures r.Raised? && r.failure.Exploded? ==>
                && mineField.field.Some? && IsMineIn(mineField.field.value, r.failure.at)
                && exists c | c in old(activeCells) && Settles(old(grid), width, height, c) ::
                     r.failure.at in AlwaysClear(old(grid), width, height, c)
      ensures r.Raised? ==> r.failure.Exploded? || r.failure == NegativeSampleSize
    {
      var pending := activeCells;
      while pending != {}
        invariant pending <= activeCells && Valid()
        invariant grid == old(grid) && activeCells == old(activeCells)
        invariant forall c | c in activeCells - pending :: !Settles(grid, width, height, c) && !Overfull(grid, width, height, c)
        decreases pending
      {
        var c :| c in pending;
        pending := pending - {c};
        r := TryCell(c);
        if !r.Declined? {
          return;
        }
      }
      return Declined;
    }

    /**
     * One pass of the loop over the frontier: skip c unless it is a swept
     * count with unknown neighbours; otherwise try every choice of its
     * missing mines and act on what every valid choice agrees on.
     */
    method TryCell(c: Cell) returns (r: Outcome)
      requires Valid() && c in activeCells
      modifies this, mineField
      ensures Valid() && Refines(old(grid), grid, width, height)
      ensures r.Declined? <==> !Settles(old(grid), width, height, c) && !Overfull(old(grid), width, height, c)
      ensures r.Declined? || r == Raised(NegativeSampleSize) ==> grid == old(grid) && activeCells == old(activeCells)
      ensures r == Raised(NegativeSampleSize) <==> Overfull(old(grid), width, height, c)
      ensures r.Moved? ==>
                && r.move == AroundCell(c, AlwaysMine(old(grid), width, height, c), AlwaysClear(old(grid), width, height, c))
                && Marked(old(grid), grid, width, height, r.move.marked, r.move.swept, mineField.field)
                && activeCells == old(activeCells) + Neighbourhoods(width, height, r.move.marked + r.move.swept)
      ensures r.Raised? ==> r.failure.Exploded? || r.failure == NegativeSampleSize
      ensures r.Raised? && r.failure.Exploded? ==>
                && Settles(old(grid), width, height, c) && r.failure.at in AlwaysClear(old(grid), width, height, c)
                && mineField.field.Some? && IsMineIn(mineField.field.value, r.failure.at)
    {
      var cellValue := grid[c.row][c.column];
      if cellValue == UNKNOWN || cellValue == MINE {
        return Declined;
      }
      var unknowns := SetOf(AdjacentCells(grid, width, height, c.column, c.row, IsUnknown));
      if unknowns == {} {
        return Declined;
      }
      var minesToAdd := cellValue - |AdjacentCells(grid, width, height, c.column, c.row, IsMine)|;
      if minesToAdd < 0 {
        return Raised(NegativeSampleSize);
      }
      r := Settle(c, unknowns, minesToAdd);
    }

    /**
     * The swept count c has the unknown neighbours `unknowns` and k mines
     * left to place among them: try every choice of k of them, then mark and
     * sweep what every valid choice agrees on.
     */
    method Settle(c: Cell, unknowns: set<Cell>, k: nat) returns (r: Outcome)
      requires Valid() && InBounds(width, height, c) && IsRevealed(Value(grid, c))
      requires unknowns == UnknownsAround(grid, width, height, c) && unknowns != {}
      requires k == MinesToAdd(grid, width, height, c)
      modifies this, mineField
      ensures Valid() && Refines(old(grid), grid, width, height)
      ensures r.Declined? <==> !Settles(old(grid), width, height, c)
      ensures r.Declined? ==> grid == old(grid) && activeCells == old(activeCells)
      ensures r.Moved? ==>
                && r.move == AroundCell(c, AlwaysMine(old(grid), width, height, c), AlwaysClear(old(grid), width, height, c))
                && Marked(old(grid), grid, width, height, r.move.marked, r.move.swept, mineField.field)
                && activeCells == old(activeCells) + Neighbourhoods(width, height, r.move.marked + r.move.swept)
      ensures r.Raised? ==>
                && r.failure.Exploded?
                && r.failure.at in AlwaysClear(old(grid), width, height, c)
                && mineField.field.Some? && IsMineIn(mineField.field.value, r.failure.at)
    {
      var order := ListOf(unknowns);
      AlwaysWithin(grid, width, height, c);
      assert mineField.field.Some?;
      var mines, cleared := TryChoices(c, order, k);
      if mines == {} && cleared == {} {
        return Declined;
      }
      var exploded := MarkAndClear(mines, cleared);
      if exploded.Some? {
        return Raised(Exploded(exploded.value));
      }
      return Moved(AroundCell(c, mines, cleared));
    }

    /**
     * For each choice of k of the unknowns around c, in the order
     * combinations gives them: set the unknowns to 0 and the choice to MINE,
     * check every swept count next to c, and set the unknowns back to
     * UNKNOWN; intersect the results over the choices that pass.
     */
    method TryChoices(c: Cell, order: seq<Cell>, k: nat) returns (mines: set<Cell>, cleared: set<Cell>)
      requires Shaped(grid, width, height)
      requires Distinct(order) && SetOf(order) == UnknownsAround(grid, width, height, c)
      requires k == MinesToAdd(grid, width, height, c)
      modifies this
      ensures grid == old(grid) && activeCells == old(activeCells)
      ensures mines == AlwaysMine(grid, width, height, c) && cleared == AlwaysClear(grid, width, height, c)
    {
      ghost var g0 := grid;
      var pool := SetOf(order);
      var toCheck := CellsToCheck(grid, width, height, c);
      var choices := Combinations(order, k);
      ghost var ok := FitsAround(g0, width, height, c);
      mines, cleared := pool, pool;
      var i := 0;
      assert forall d | d in order :: d in pool;
      while i < |choices|
        invariant 0 <= i <= |choices| && grid == g0 && activeCells == old(activeCells)
        invariant mines == TakenByAll(pool, choices[..i], ok) && cleared == TakenByNone(pool, choices[..i], ok)
      {
        var choice := choices[i];
        CombinationsSound(order, k, choice);
        var valid := TryChoice(order, toCheck, choice);
        assert valid == ok(SetOf(choice));
        TakenStep(pool, choices, ok, i);
        if valid {
          mines := mines * SetOf(choice);
          cleared := cleared * (pool - SetOf(choice));
          if mines == {} && cleared == {} {
            TakenShrinks(pool, choices, ok, i + 1);
            EnumeratedVerdict(g0, width, height, c, order);
            return;
          }
        }
        i := i + 1;
      }
      assert choices[..i] == choices;
      EnumeratedVerdict(g0, width, height, c, order);
    }

    /**
     * One trial: the unknowns `order` set to 0, then the cells of `choice` to
     * MINE, every cell of `toCheck` checked, and the unknowns set back to
     * UNKNOWN.
     */
    method TryChoice(order: seq<Cell>, toCheck: seq<Cell>, choice: seq<Cell>) returns (valid: bool)
      requires Shaped(grid, width, height)
      requires forall d | d in order :: InBounds(width, height, d) && IsUnknown(Value(grid, d))
      requires SetOf(choice) <= SetOf(order)
      modifies this
      ensures grid == old(grid) && activeCells == old(activeCells)
      ensures valid <==> forall d | d in toCheck ::
                CellIsValid(Trial(grid, SetOf(order), SetOf(choice)), width, height, d.row, d.column)
    {
      ghost var g0 := grid;
      WriteAll(order, 0);
      assert forall d | d in choice :: d in SetOf(choice);
      WriteAll(choice, MINE);
      valid := AllValid(grid, width, height, toCheck);
      WriteAll(order, UNKNOWN);
      TrialRestored(g0, width, height, SetOf(order), SetOf(choice));
    }

    /** Set each of `cells`, in turn, to v. */
    method WriteAll(cells: seq<Cell>, v: int)
      requires Shaped(grid, width, height) && forall d | d in cells :: InBounds(width, height, d)
      modifies this
      ensures grid == Overwrite(old(grid), SetOf(cells), v) && activeCells == old(activeCells)
    {
      ghost var g0 := grid;
      SameBoard(grid, Overwrite(grid, {}, v), width, height);
      assert SetOf(cells[..0]) == {};
      for i := 0 to |cells|
        invariant grid == Overwrite(g0, SetOf(cells[..i]), v) && activeCells == old(activeCells)
      {
        OverwriteStep(g0, width, height, SetOf(cells[..i]), cells[i], v);
        grid := Write(grid, cells[i], v);
        assert SetOf(cells[..i + 1]) == SetOf(cells[..i]) + {cells[i]};
      }
      assert cells[..|cells|] == cells;
    }

    /**
     * Mark each of `mines` and then sweep each of `cleared`, growing the
     * frontier around each; a sweep that explodes stops at that cell.
     */
    method MarkAndClear(mines: set<Cell>, cleared: set<Cell>) returns (exploded: Option<Cell>)
      requires Valid()
      requires forall d | d in mines + cleared :: InBounds(width, height, d) && IsUnknown(Value(grid, d))
      requires cleared != {} ==> mineField.field.Some?
      modifies this, mineField
      ensures Valid() && Refines(old(grid), grid, width, height) && mineField.field == old(mineField.field)
      ensures exploded.None? ==>
                && Marked(old(grid), grid, width, height, mines, cleared, mineField.field)
                && activeCells == old(activeCells) + Neighbourhoods(width, height, mines + cleared)
      ensures exploded.Some? ==>
                exploded.value in cleared && mineField.field.Some? && IsMineIn(mineField.field.value, exploded.value)
    {
      ghost var g0, a0 := grid, activeCells;
      MarkAll(mines);
      exploded := ClearAll(g0, a0, mines, cleared);
    }

    /** The first loop of MarkAndClear: every cell of `mines` becomes MINE. */
    method MarkAll(mines: set<Cell>)
      requires Valid()
      requires forall d | d in mines :: InBounds(width, height, d) && IsUnknown(Value(grid, d))
      modifies this
      ensures Valid() && Refines(old(grid), grid, width, height)
      ensures Marked(old(grid), grid, width, height, mines, {}, mineField.field)
      ensures activeCells == old(activeCells) + Neighbourhoods(width, height, mines + {})
    {
      ghost var g0, a0 := grid, activeCells;
      MarkedNothing(grid, width, height, mineField.field);
      assert Neighbourhoods(width, height, {} + {}) == {};
      var toMark := mines;
      ghost var marked: set<Cell> := {};
      while toMark != {}
        invariant toMark <= mines && marked == mines - toMark
        invariant Valid() && Refines(g0, grid, width, height)
        invariant Marked(g0, grid, width, height, marked, {}, mineField.field)
        invariant activeCells == a0 + Neighbourhoods(width, height, marked + {})
        decreases toMark
      {
        var c :| c in toMark;
        DoneStep(mines, marked, toMark, c);
        MarkDecided(c, g0, a0, marked, {});
        toMark := toMark - {c};
        marked := marked + {c};
      }
    }

    /** The second loop of MarkAndClear: every cell of `cleared` is swept, stopping at an explosion. */
    method ClearAll(ghost g0: Board, ghost a0: set<Cell>, ghost mines: set<Cell>, cleared: set<Cell>) returns (exploded: Option<Cell>)
      requires Valid() && Refines(g0, grid, width, height)
      requires forall d | d in cleared :: InBounds(width, height, d) && IsUnknown(Value(g0, d))
      requires cleared != {} ==> mineField.field.Some?
      requires Marked(g0, grid, width, height, mines, {}, mineField.field)
      requires activeCells == a0 + Neighbourhoods(width, height, mines + {})
      modifies this, mineField
      ensures Valid() && Refines(g0, grid, width, height) && mineField.field == old(mineField.field)
      ensures exploded.None? ==>
                && Marked(g0, grid, width, height, mines, cleared, mineField.field)
                && activeCells == a0 + Neighbourhoods(width, height, mines + cleared)
      ensures exploded.Some? ==>
                exploded.value in cleared && mineField.field.Some? && IsMineIn(mineField.field.value, exploded.value)
    {
      var toClear := cleared;
      ghost var swept: set<Cell> := {};
      while toClear != {}
        invariant toClear <= cleared && swept == cleared - toClear
        invariant Valid() && Refines(g0, grid, width, height) && mineField.field == old(mineField.field)
        invariant Marked(g0, grid, width, height, mines, swept, mineField.field)
        invariant activeCells == a0 + Neighbourhoods(width, height, mines + swept)
        decreases toClear
      {
        var c :| c in toClear;
        DoneStep(cleared, swept, toClear, c);
        var boom := ClearDecided(c, g0, a0, mines, swept);
        if boom {
          return Some(c);
        }
        toClear := toClear - {c};
        swept := swept + {c};
      }
      return None;
    }

    // -------------------------------------------------------------------------
    // sweep_corner_cell

    /** Sweep the first UNKNOWN corner, in the order (0, 0), (0, h-1), (w-1, 0), else (w-1, h-1). */
    method SweepCornerCell() returns (r: Outcome)
      requires Valid()
      modifies this, mineField
      ensures Valid() && Refines(old(grid), grid, width, height)
      ensures r.Moved? || r.Declined? || r.Raised?
      ensures !r.Declined? ==> mineField.field.Some?
      ensures var c := CornerTarget(old(grid), width, height);
              && (r.Declined? <==> !IsUnknown(Value(old(grid), c)))
              && (r.Declined? ==> grid == old(grid) && activeCells == old(activeCells))
              && (!r.Declined? ==> activeCells == old(activeCells) + ClosedNeighbourhood(width, height, c))
              && (r.Moved? ==> && r.move == CornerSwept(c, Value(grid, c))
                               && Updated(old(grid), grid, width, height, c,
                                          AdjacentMines(mineField.field.value, width, height, c.column, c.row)))
              && (r.Raised? ==> r.failure == Exploded(c) && IsMineIn(mineField.field.value, c) && grid == old(grid))
    {
      var c := CornerTarget(grid, width, height);
      if grid[c.row][c.column] != UNKNOWN {
        return Declined;
      }
      var exploded := ClearCell(c);
      if exploded {
        return Raised(Exploded(c));
      }
      return Moved(CornerSwept(c, grid[c.row][c.column]));
    }

    // -------------------------------------------------------------------------
    // sweep

    /**
     * Try the sweepers in order until one makes a move, then prune the
     * frontier; an exception from a sweeper escapes unpruned. The last
     * sweeper never declines, so neither does sweep.
     */
    method Sweep() returns (r: Outcome)
      requires Valid()
      modifies this, mineField
      ensures Valid() && Refines(old(grid), grid, width, height)
      ensures r != Declined
      ensures r.Moved? ==> !r.move.AroundCell? && forall c | c in activeCells :: HasUnknownNeighbour(grid, width, height, c)
      ensures r.Moved? ==>
                activeCells == Pruned(grid, width, height, old(activeCells) + Grown(width, height, r.move))
      ensures (r.Moved? && !r.move.ConstraintDeduction?) || r == Raised(EmptyChoice) ==>
                ConstraintStuck(old(grid), width, height, old(activeCells))
      ensures r.Moved? && r.move.CornerSwept? ==> r.move.at == CornerTarget(old(grid), width, height) && IsUnknown(Value(old(grid), r.move.at))
      ensures (r.Moved? && r.move.RandomSwept?) || r == Raised(EmptyChoice) ==> CornersDone(old(grid), width, height)
      ensures r.Moved? && r.move.RandomSwept? ==> r.move.at in UnknownCells(old(grid), width, height)
      ensures r == Raised(EmptyChoice) ==> UnknownCells(old(grid), width, height) == {}
      ensures r.Raised? ==> r.failure.EmptyChoice? || (r.failure.Exploded? && mineField.field.Some? && IsMineIn(mineField.field.value, r.failure.at))
    {
      ghost var g0, a0 := grid, activeCells;
      var i := 0;
      while true
        invariant 0 <= i < |Sweepers|
        invariant Valid() && grid == g0 && activeCells == a0
        invariant i >= 1 ==> ConstraintStuck(g0, width, height, a0)
        invariant i >= 2 ==> CornersDone(g0, width, height)
        decreases |Sweepers| - i
      {
        r := RunSweeper(Sweepers[i]);
        if !r.Declined? {
          break;
        }
        i := i + 1;
      }
      if r.Moved? {
        ghost var grown := activeCells;
        assert grown == a0 + Grown(width, height, r.move);
        PruneActiveCells();
        assert activeCells == Pruned(grid, width, height, grown);
      }
    }

    /** Call one sweeper, and say what its outcome tells about the board it started from. */
    method RunSweeper(s: Sweeper) returns (r: Outcome)
      requires Valid()
      modifies this, mineField
      ensures Valid() && Refines(old(grid), grid, width, height)
      ensures r.Declined? ==> grid == old(grid) && activeCells == old(activeCells)
      ensures r.Declined? && s == ByConstraint ==> ConstraintStuck(old(grid), width, height, old(activeCells))
      ensures r.Declined? && s == ByCorner ==> CornersDone(old(grid), width, height)
      ensures s == ByRandomCell ==> !r.Declined?
      ensures r.Moved? ==> activeCells == old(activeCells) + Grown(width, height, r.move)
      ensures r.Moved? ==> !r.move.AroundCell? && (r.move.ConstraintDeduction? <==> s == ByConstraint)
      ensures r.Moved? && r.move.CornerSwept? ==>
                s == ByCorner && r.move.at == CornerTarget(old(grid), width, height) && IsUnknown(Value(old(grid), r.move.at))
      ensures r.Moved? && r.move.RandomSwept? ==> s == ByRandomCell && r.move.at in UnknownCells(old(grid), width, height)
      ensures r == Raised(EmptyChoice) ==> s == ByRandomCell && UnknownCells(old(grid), width, height) == {}
      ensures r.Raised? ==> r.failure.EmptyChoice? || (r.failure.Exploded? && mineField.field.Some? && IsMineIn(mineField.field.value, r.failure.at))
    {
      match s {
        case ByConstraint =>
          r := SweepConstraint();
        case ByCorner =>
          r := SweepCornerCell();
        case ByRandomCell =>
          r := SweepRandomCell();
          if r.Moved? {
            GrownByOne(width, height, r.move);
          }
      }
    }

    // -------------------------------------------------------------------------
    // sweep_random_cell

    /** Sweep any UNKNOWN cell; with none left, random.choice raises. */
    method SweepRandomCell() returns (r: Outcome)
      requires Valid()
      modifies this, mineField
      ensures Valid() && Refines(old(grid), grid, width, height)
      ensures r != Declined
      ensures r.Raised? ==> r.failure.EmptyChoice? || r.failure.Exploded?
      ensures r == Raised(EmptyChoice) <==> UnknownCells(old(grid), width, height) == {}
      ensures r == Raised(EmptyChoice) ==> grid == old(grid) && activeCells == old(activeCells)
      ensures r != Raised(EmptyChoice) ==> mineField.field.Some?
      ensures r.Moved? ==>
                && r.move.RandomSwept?
                && r.move.at in UnknownCells(old(grid), width, height)
                && Updated(old(grid), grid, width, height, r.move.at,
                           AdjacentMines(mineField.field.value, width, height, r.move.at.column, r.move.at.row))
                && activeCells == old(activeCells) + ClosedNeighbourhood(width, height, r.move.at)
      ensures r.Raised? && r.failure.Exploded? ==>
                && r.failure.at in UnknownCells(old(grid), width, height)
                && IsMineIn(mineField.field.value, r.failure.at)
                && grid == old(grid)
    {
      var candidates := UnknownCells(grid, width, height);
      if candidates == {} {
        return Raised(EmptyChoice);
      }
      var c :| c in candidates;
      var exploded := ClearCell(c);
      if exploded {
        return Raised(Exploded(c));
      }
      return Moved(RandomSwept(c));
    }
  }

  /**
   * The first scenario of the solver's tests for trying every configuration,
   * with the count at (0, 0) on the frontier: the solver marks (1, 1) and
   * clears nothing.
   */
  method TryAllExample(s: Solver) returns (r: Outcome)
    requires s.Valid() && s.width == 3 && s.height == 2
    requires s.grid == ExampleBoard() && s.activeCells == {Cell(0, 0)}
    modifies s, s.mineField
    ensures r == Moved(AroundCell(Cell(0, 0), {Cell(1, 1)}, {}))
    ensures IsMine(Value(s.grid, Cell(1, 1)))
  {
    ghost var g0, a0 := s.grid, s.activeCells;
    r := s.TryAllConfigurations();
    ExampleOutcome(r, g0, a0);
  }

  /** What the contract of TryAllConfigurations leaves possible on the example board with (0, 0) active. */
  lemma ExampleOutcome(r: Outcome, g: Board, active: set<Cell>)
    requires g == ExampleBoard() && active == {Cell(0, 0)}
    requires && (r.Declined? ==> forall c | c in active :: !Settles(g, 3, 2, c) && !Overfull(g, 3, 2, c))
             && (r == Raised(NegativeSampleSize) ==> exists c | c in active :: Overfull(g, 3, 2, c))
             && (r.Moved? ==>
                   && r.move.AroundCell? && r.move.centre in active
                   && r.move.marked == AlwaysMine(g, 3, 2, r.move.centre)
                   && r.move.swept == AlwaysClear(g, 3, 2, r.move.centre))
             && (r.Raised? && r.failure.Exploded? ==>
                   exists c | c in active && Settles(g, 3, 2, c) :: r.failure.at in AlwaysClear(g, 3, 2, c))
             && (r.Raised? ==> r.failure.Exploded? || r.failure == NegativeSampleSize)
    ensures r == Moved(AroundCell(Cell(0, 0), {Cell(1, 1)}, {}))
  {
    ExampleSettles();
    ExampleMinesToAdd();
  }
}
