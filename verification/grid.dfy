/**
 * The solver's picture of the board and the queries it makes of it. A board
 * holds, per cell, UNKNOWN, MINE (a cell the solver has marked) or the count
 * a sweep of that cell reported; it is indexed board[row][column] while cells
 * are written (column, row).
 */
module Grid {
  import opened Cells
  import opened ExactSum
  import opened Choices

  type Board = seq<seq<int>>

  const UNKNOWN: int := -1
  const MINE: int := -2

  predicate IsMine(value: int) {
    value == MINE
  }

  predicate IsUnknown(value: int) {
    value == UNKNOWN
  }

  /** The selector get_adjacent_cells falls back to when it is given none. */
  predicate AnyValue(value: int) {
    true
  }

  /** A swept count: neither UNKNOWN nor MINE. */
  predicate IsRevealed(value: int) {
    value != UNKNOWN && value != MINE
  }

  predicate Shaped(g: Board, width: int, height: int) {
    |g| == height && forall row | 0 <= row < height :: |g[row]| == width
  }

  /** The value at c; off the board, where no neighbour list reaches, UNKNOWN. */
  function Value(g: Board, c: Cell): int {
    if 0 <= c.row < |g| && 0 <= c.column < |g[c.row]| then g[c.row][c.column] else UNKNOWN
  }

  /** A selector on values as a selector on cells, built in one place. */
  function Selecting(g: Board, select: int -> bool): Cell -> bool {
    d => select(Value(g, d))
  }

  /** The in-bounds neighbours of (column, row) whose value `select` accepts, in the source's order. */
  function AdjacentCells(g: Board, width: int, height: int, column: int, row: int, select: int -> bool): (r: seq<Cell>)
    ensures |r| <= 8 && Distinct(r)
    ensures forall d :: d in r <==> IsNeighbour(width, height, Cell(column, row), d) && select(Value(g, d))
  {
    AdjacentFrom(g, width, height, column, row, select, 0)
  }

  /** Where d lies in the 3 x 3 block around (column, row), counting row by row: 0 to 8, the centre 4. */
  function OffsetIndex(column: int, row: int, d: Cell): int {
    3 * (d.row - row + 1) + (d.column - column + 1)
  }

  /**
   * The list comprehension of get_adjacent_cells from the k-th of its nine
   * (dr, dc) pairs on, dr outer and dc inner, each kept when it is not
   * (0, 0), is on the board and its value passes `select`.
   */
  function AdjacentFrom(g: Board, width: int, height: int, column: int, row: int, select: int -> bool, k: nat): (r: seq<Cell>)
    requires k <= 9
    ensures |r| <= 9 - k - (if k <= 4 then 1 else 0) && Distinct(r)
    ensures forall d {:trigger d in r} :: d in r <==>
              IsNeighbour(width, height, Cell(column, row), d) && select(Value(g, d)) && OffsetIndex(column, row, d) >= k
    decreases 9 - k
  {
    if k == 9 then []
    else
      var dr, dc := k / 3 - 1, k % 3 - 1;
      var d := Cell(column + dc, row + dr);
      var rest := AdjacentFrom(g, width, height, column, row, select, k + 1);
      assert OffsetIndex(column, row, d) == k;
      assert forall e | IsNeighbour(width, height, Cell(column, row), e) && OffsetIndex(column, row, e) == k :: e == d;
      if (dc, dr) != (0, 0) && 0 <= row + dr < height && 0 <= column + dc < width && select(Value(g, d)) then
        assert d !in rest;
        DistinctCons(d, rest);
        [d] + rest
      else
        rest
  }

  /** Reference definition: the set of neighbours of c whose value `select` accepts. */
  function Around(g: Board, width: int, height: int, c: Cell, select: int -> bool): (r: set<Cell>)
    ensures forall d :: d in r <==> IsNeighbour(width, height, c, d) && select(Value(g, d))
  {
    set d | d in Box(c) && IsNeighbour(width, height, c, d) && select(Value(g, d))
  }

  /** The 3 x 3 block of positions centred on c. */
  function Box(c: Cell): (r: set<Cell>)
    ensures forall d {:trigger d in r} :: d in r <==> -1 <= d.column - c.column <= 1 && -1 <= d.row - c.row <= 1
  {
    var (x, y) := (c.column, c.row);
    {Cell(x - 1, y - 1), Cell(x, y - 1), Cell(x + 1, y - 1),
     Cell(x - 1, y), Cell(x, y), Cell(x + 1, y),
     Cell(x - 1, y + 1), Cell(x, y + 1), Cell(x + 1, y + 1)}
  }

  /** Counting the list get_adjacent_cells returns counts the neighbours themselves. */
  lemma AdjacentCount(g: Board, width: int, height: int, c: Cell, select: int -> bool)
    ensures |AdjacentCells(g, width, height, c.column, c.row, select)| == |Around(g, width, height, c, select)|
  {
    var s := AdjacentCells(g, width, height, c.column, c.row, select);
    assert SetOf(s) == Around(g, width, height, c, select);
    DistinctCard(s);
  }

  /** A count lies between two bounds exactly when some choice of the unknowns completes it. */
  lemma Completable(mines: set<Cell>, unknowns: set<Cell>, value: int)
    ensures (|mines| <= value <= |mines| + |unknowns|) <==>
            exists extra :: extra <= unknowns && |mines| + |extra| == value
  {
    if |mines| <= value <= |mines| + |unknowns| {
      SubsetOfSize(unknowns, value - |mines|);
    }
    forall extra | extra <= unknowns ensures |extra| <= |unknowns| {
      SubsetCardinality(extra, unknowns);
    }
  }

  /**
   * A cell is valid when it is UNKNOWN or MINE, or when its count can still
   * be met: some of its unknown neighbours, added to its marked mines, make
   * up exactly its count.
   */
  function CellIsValid(g: Board, width: int, height: int, row: int, column: int): (valid: bool)
    ensures valid <==>
      !IsRevealed(Value(g, Cell(column, row))) ||
      exists extra :: extra <= Around(g, width, height, Cell(column, row), IsUnknown) &&
                      |Around(g, width, height, Cell(column, row), IsMine)| + |extra| == Value(g, Cell(column, row))
  {
    var c := Cell(column, row);
    var cellValue := Value(g, c);
    if cellValue == MINE || cellValue == UNKNOWN then true
    else
      var numberOfMines := |AdjacentCells(g, width, height, column, row, IsMine)|;
      var numberOfUnknowns := |AdjacentCells(g, width, height, column, row, IsUnknown)|;
      AdjacentCount(g, width, height, c, IsMine);
      AdjacentCount(g, width, height, c, IsUnknown);
      Completable(Around(g, width, height, c, IsMine), Around(g, width, height, c, IsUnknown), cellValue);
      numberOfMines <= cellValue <= numberOfMines + numberOfUnknowns
  }

  // ---------------------------------------------------------------------------
  // Marked mines, in row-major order

  predicate Before(a: Cell, b: Cell) {
    a.row < b.row || (a.row == b.row && a.column < b.column)
  }

  predicate RowMajor(s: seq<Cell>) {
    forall i, j | 0 <= i < j < |s| :: Before(s[i], s[j])
  }

  lemma RowMajorAppend(a: seq<Cell>, b: seq<Cell>)
    requires RowMajor(a) && RowMajor(b)
    requires forall x, y | x in a && y in b :: Before(x, y)
    ensures RowMajor(a + b)
  {
    forall i, j | 0 <= i < j < |a + b| ensures Before((a + b)[i], (a + b)[j]) {
      if i < |a| <= j {
        assert (a + b)[i] in a && (a + b)[j] in b;
      }
    }
  }

  /** Cells column, column + 1, ..., width - 1 of one row. */
  function RowFrom(width: int, row: int, column: int): (r: seq<Cell>)
    ensures forall d :: d in r <==> d.row == row && column <= d.column < width
    ensures RowMajor(r)
    decreases width - column
  {
    if column >= width then []
    else
      var rest := RowFrom(width, row, column + 1);
      RowMajorAppend([Cell(column, row)], rest);
      [Cell(column, row)] + rest
  }

  /** The cells of rows row, row + 1, ..., height - 1, row by row. */
  function RowsFrom(width: int, height: int, row: int): (r: seq<Cell>)
    ensures forall d :: d in r <==> row <= d.row < height && 0 <= d.column < width
    ensures RowMajor(r)
    decreases height - row
  {
    if row >= height then []
    else
      var rest := RowsFrom(width, height, row + 1);
      RowMajorAppend(RowFrom(width, row, 0), rest);
      RowFrom(width, row, 0) + rest
  }

  lemma {:induction false} FilterRowMajor(s: seq<Cell>, p: Cell -> bool)
    requires RowMajor(s)
    ensures RowMajor(Filter(s, p))
  {
    if s != [] {
      var tail := s[1..];
      assert RowMajor(tail);
      FilterRowMajor(tail, p);
      var head: seq<Cell> := if p(s[0]) then [s[0]] else [];
      forall x, y | x in head && y in Filter(tail, p) ensures Before(x, y) {
        var j :| 0 <= j < |tail| && tail[j] == y;
        assert s[j + 1] == y;
      }
      RowMajorAppend(head, Filter(tail, p));
    }
  }

  /** The cells marked MINE, row by row, each once. */
  function MinesFound(g: Board, width: int, height: int): (r: seq<Cell>)
    ensures forall d :: d in r <==> InBounds(width, height, d) && IsMine(Value(g, d))
    ensures RowMajor(r) && Distinct(r)
  {
    FilterRowMajor(RowsFrom(width, height, 0), Selecting(g, IsMine));
    Filter(RowsFrom(width, height, 0), Selecting(g, IsMine))
  }

  // ---------------------------------------------------------------------------
  // The frontier

  ghost predicate HasUnknownNeighbour(g: Board, width: int, height: int, c: Cell) {
    exists d :: IsNeighbour(width, height, c, d) && IsUnknown(Value(g, d))
  }

  /** any(get_adjacent_cells(column, row, is_unknown)). */
  function AnyUnknownNeighbour(g: Board, width: int, height: int, c: Cell): (b: bool)
    ensures b <==> HasUnknownNeighbour(g, width, height, c)
  {
    var unknowns := AdjacentCells(g, width, height, c.column, c.row, IsUnknown);
    if unknowns == [] then false
    else
      assert unknowns[0] in unknowns;
      true
  }

  /** The frontier cells that still have an unknown neighbour. */
  function Pruned(g: Board, width: int, height: int, active: set<Cell>): (r: set<Cell>)
    ensures r <= active
    ensures forall c :: c in r <==> c in active && HasUnknownNeighbour(g, width, height, c)
  {
    set c | c in active && AnyUnknownNeighbour(g, width, height, c)
  }

  /** Pruning a pruned frontier changes nothing. */
  lemma PruneIdempotent(g: Board, width: int, height: int, active: set<Cell>)
    ensures Pruned(g, width, height, Pruned(g, width, height, active)) == Pruned(g, width, height, active)
  {
  }

  // ---------------------------------------------------------------------------
  // The exact-sum problem of the frontier

  /** The constraint a swept count places on its unknown neighbours. */
  function ConstraintAt(g: Board, width: int, height: int, c: Cell): Constraint {
    Constraint(Value(g, c) - |AdjacentCells(g, width, height, c.column, c.row, IsMine)|,
               AdjacentCells(g, width, height, c.column, c.row, IsUnknown))
  }

  /** One constraint per swept count of the frontier. */
  function Constraints(g: Board, width: int, height: int, active: set<Cell>): set<Constraint> {
    set c | c in active && IsRevealed(Value(g, c)) :: ConstraintAt(g, width, height, c)
  }

  /** The unknown neighbours of the frontier's swept counts. */
  function Variables(g: Board, width: int, height: int, active: set<Cell>): (r: set<Cell>)
    ensures forall d | d in r :: InBounds(width, height, d) && IsUnknown(Value(g, d))
  {
    set c, d | c in active && IsRevealed(Value(g, c)) && d in AdjacentCells(g, width, height, c.column, c.row, IsUnknown) :: d
  }

  /** Every constraint of the frontier ranges over variables of the frontier. */
  lemma ProblemWellFormed(g: Board, width: int, height: int, active: set<Cell>)
    ensures WellFormed(Variables(g, width, height, active), Constraints(g, width, height, active))
  {
  }

  /** Taking one more frontier cell adds its constraint and its unknown neighbours, if it is a swept count. */
  lemma ProblemAdd(g: Board, width: int, height: int, active: set<Cell>, c: Cell)
    ensures Constraints(g, width, height, active + {c}) ==
            Constraints(g, width, height, active) + (if IsRevealed(Value(g, c)) then {ConstraintAt(g, width, height, c)} else {})
    ensures Variables(g, width, height, active + {c}) ==
            Variables(g, width, height, active) +
            (if IsRevealed(Value(g, c)) then SetOf(AdjacentCells(g, width, height, c.column, c.row, IsUnknown)) else {})
  {
    ConstraintsAdd(g, width, height, active, c);
    VariablesAdd(g, width, height, active, c);
  }

  lemma ConstraintsAdd(g: Board, width: int, height: int, active: set<Cell>, c: Cell)
    ensures Constraints(g, width, height, active + {c}) ==
            Constraints(g, width, height, active) + (if IsRevealed(Value(g, c)) then {ConstraintAt(g, width, height, c)} else {})
  {
  }

  lemma VariablesAdd(g: Board, width: int, height: int, active: set<Cell>, c: Cell)
    ensures Variables(g, width, height, active + {c}) ==
            Variables(g, width, height, active) +
            (if IsRevealed(Value(g, c)) then SetOf(AdjacentCells(g, width, height, c.column, c.row, IsUnknown)) else {})
  {
    var before, after := Variables(g, width, height, active), Variables(g, width, height, active + {c});
    var unknowns := AdjacentCells(g, width, height, c.column, c.row, IsUnknown);
    forall d | d in after
      ensures d in before || (IsRevealed(Value(g, c)) && d in unknowns)
    {
      var e :| e in active + {c} && IsRevealed(Value(g, e)) && d in AdjacentCells(g, width, height, e.column, e.row, IsUnknown);
      if e != c {
        assert d in before;
      }
    }
  }

  /** The frontier's variables that every solution gives the same value. */
  ghost function Determined(g: Board, width: int, height: int, active: set<Cell>, b: int): set<Cell> {
    var vars, cs := Variables(g, width, height, active), Constraints(g, width, height, active);
    set d | d in vars && Forced(vars, cs, d, b)
  }

  // ---------------------------------------------------------------------------
  // Trial configurations around one count

  /** The board with every cell of `cells` set to v. */
  function Overwrite(g: Board, cells: set<Cell>, v: int): (r: Board)
    ensures |r| == |g| && forall row | 0 <= row < |g| :: |r[row]| == |g[row]|
    ensures forall c :: Value(r, c) == if c in cells && 0 <= c.row < |g| && 0 <= c.column < |g[c.row]| then v else Value(g, c)
  {
    seq(|g|, row requires 0 <= row < |g| =>
      seq(|g[row]|, column requires 0 <= column < |g[row]| =>
        if Cell(column, row) in cells then v else g[row][column]))
  }

  /** Every unknown around the count set to 0, then the chosen ones to MINE. */
  function Trial(g: Board, unknowns: set<Cell>, choice: set<Cell>): Board {
    Overwrite(Overwrite(g, unknowns, 0), choice, MINE)
  }

  function UnknownsAround(g: Board, width: int, height: int, c: Cell): set<Cell> {
    SetOf(AdjacentCells(g, width, height, c.column, c.row, IsUnknown))
  }

  function MinesToAdd(g: Board, width: int, height: int, c: Cell): int {
    Value(g, c) - |AdjacentCells(g, width, height, c.column, c.row, IsMine)|
  }

  /** The swept counts next to c, whose validity a trial must keep. */
  function CellsToCheck(g: Board, width: int, height: int, c: Cell): seq<Cell> {
    AdjacentCells(g, width, height, c.column, c.row, IsRevealed)
  }

  /** Marking `choice` as the mines around c leaves every neighbouring count valid. */
  predicate Fits(g: Board, width: int, height: int, c: Cell, choice: set<Cell>) {
    forall d | d in CellsToCheck(g, width, height, c) ::
      CellIsValid(Trial(g, UnknownsAround(g, width, height, c), choice), width, height, d.row, d.column)
  }

  /** A valid choice: MinesToAdd of the unknowns around c, fitting the neighbouring counts. */
  predicate ValidChoice(g: Board, width: int, height: int, c: Cell, choice: set<Cell>) {
    && choice <= UnknownsAround(g, width, height, c)
    && |choice| == MinesToAdd(g, width, height, c)
    && Fits(g, width, height, c, choice)
  }

  /** The unknowns around c that every valid choice marks. */
  ghost function AlwaysMine(g: Board, width: int, height: int, c: Cell): set<Cell> {
    set u | u in UnknownsAround(g, width, height, c) &&
      forall choice | ValidChoice(g, width, height, c, choice) :: u in choice
  }

  /** The unknowns around c that no valid choice marks. */
  ghost function AlwaysClear(g: Board, width: int, height: int, c: Cell): set<Cell> {
    set u | u in UnknownsAround(g, width, height, c) &&
      forall choice | ValidChoice(g, width, height, c, choice) :: u !in choice
  }

  /** What every valid choice agrees on lies among the unknowns around c, which are on the board. */
  lemma AlwaysWithin(g: Board, width: int, height: int, c: Cell)
    ensures AlwaysMine(g, width, height, c) + AlwaysClear(g, width, height, c) <= UnknownsAround(g, width, height, c)
    ensures forall d | d in UnknownsAround(g, width, height, c) :: InBounds(width, height, d) && IsUnknown(Value(g, d))
  {
  }

  /**
   * A swept count with unknown neighbours and no more marked mines around it
   * than it counts, some of whose unknowns every valid choice marks, or none
   * does: the count that trying every configuration acts on.
   */
  ghost predicate Settles(g: Board, width: int, height: int, c: Cell) {
    && IsRevealed(Value(g, c)) && UnknownsAround(g, width, height, c) != {}
    && MinesToAdd(g, width, height, c) >= 0
    && (AlwaysMine(g, width, height, c) != {} || AlwaysClear(g, width, height, c) != {})
  }

  /** A swept count with unknown neighbours and more marked mines around it than it counts. */
  predicate Overfull(g: Board, width: int, height: int, c: Cell) {
    IsRevealed(Value(g, c)) && UnknownsAround(g, width, height, c) != {} && MinesToAdd(g, width, height, c) < 0
  }

  /** Fits as a selector on choices, built in one place. */
  function FitsAround(g: Board, width: int, height: int, c: Cell): set<Cell> -> bool {
    choice => Fits(g, width, height, c, choice)
  }

  /**
   * Running through combinations(unknowns, MinesToAdd) visits every valid
   * choice, so intersecting over the ones that fit gives AlwaysMine and
   * AlwaysClear.
   */
  lemma {:induction false} EnumeratedVerdict(g: Board, width: int, height: int, c: Cell, unknowns: seq<Cell>)
    requires Distinct(unknowns) && SetOf(unknowns) == UnknownsAround(g, width, height, c)
    requires MinesToAdd(g, width, height, c) >= 0
    ensures var choices := Combinations(unknowns, MinesToAdd(g, width, height, c));
            && TakenByAll(SetOf(unknowns), choices, FitsAround(g, width, height, c)) == AlwaysMine(g, width, height, c)
            && TakenByNone(SetOf(unknowns), choices, FitsAround(g, width, height, c)) == AlwaysClear(g, width, height, c)
  {
    var k := MinesToAdd(g, width, height, c);
    var choices := Combinations(unknowns, k);
    forall i | 0 <= i < |choices| && Fits(g, width, height, c, SetOf(choices[i]))
      ensures ValidChoice(g, width, height, c, SetOf(choices[i]))
    {
      CombinationsSound(unknowns, k, choices[i]);
      DistinctCard(choices[i]);
    }
    forall choice | ValidChoice(g, width, height, c, choice)
      ensures exists i :: 0 <= i < |choices| && SetOf(choices[i]) == choice
    {
      CombinationsComplete(unknowns, k, choice);
    }
  }

  /** The first board of the solver's tests for trying every configuration, with (0, 0) the count tried. */
  function ExampleBoard(): Board {
    [[1, 1, UNKNOWN], [1, UNKNOWN, UNKNOWN]]
  }

  /**
   * On the example board the count at (0, 0) settles: its one unknown
   * neighbour (1, 1) must hold its one missing mine, and that choice fits
   * the counts at (1, 0) and (0, 1); so (1, 1) is marked and nothing is
   * cleared.
   */
  lemma ExampleSettles()
    ensures Settles(ExampleBoard(), 3, 2, Cell(0, 0))
    ensures AlwaysMine(ExampleBoard(), 3, 2, Cell(0, 0)) == {Cell(1, 1)}
    ensures AlwaysClear(ExampleBoard(), 3, 2, Cell(0, 0)) == {}
  {
    var g, c, x := ExampleBoard(), Cell(0, 0), Cell(1, 1);
    ExampleUnknowns();
    ExampleMinesToAdd();
    forall choice | ValidChoice(g, 3, 2, c, choice) ensures choice == {x} {
    }
    ExampleFits();
    assert ValidChoice(g, 3, 2, c, {x});
  }

  lemma ExampleUnknowns()
    ensures UnknownsAround(ExampleBoard(), 3, 2, Cell(0, 0)) == {Cell(1, 1)}
  {
    forall d | IsNeighbour(3, 2, Cell(0, 0), d) ensures d == Cell(1, 0) || d == Cell(0, 1) || d == Cell(1, 1) {
    }
  }

  lemma ExampleMinesToAdd()
    ensures MinesToAdd(ExampleBoard(), 3, 2, Cell(0, 0)) == 1
  {
    var marked := AdjacentCells(ExampleBoard(), 3, 2, 0, 0, IsMine);
    assert marked == [];
  }

  /** Marking (1, 1) as the mine around (0, 0) keeps the counts at (1, 0) and (0, 1) valid. */
  lemma ExampleFits()
    ensures Fits(ExampleBoard(), 3, 2, Cell(0, 0), {Cell(1, 1)})
  {
    var g, c, x := ExampleBoard(), Cell(0, 0), Cell(1, 1);
    ExampleUnknowns();
    forall d | d in CellsToCheck(g, 3, 2, c) ensures CellIsValid(Trial(g, {x}, {x}), 3, 2, d.row, d.column) {
      ExampleCountValid(d);
    }
  }

  /** In the trial that marks (1, 1), the counts at (1, 0) and (0, 1) each see exactly that one mine. */
  lemma ExampleCountValid(d: Cell)
    requires d == Cell(1, 0) || d == Cell(0, 1)
    ensures CellIsValid(Trial(ExampleBoard(), {Cell(1, 1)}, {Cell(1, 1)}), 3, 2, d.row, d.column)
  {
    var g, x := ExampleBoard(), Cell(1, 1);
    var t := Trial(g, {x}, {x});
    forall e | e != x ensures !IsMine(Value(t, e)) {
      assert Value(t, e) == Value(g, e);
    }
    OneMineValid(t, 3, 2, d, x);
  }

  /** A count of 1 with exactly one marked neighbour is valid. */
  lemma OneMineValid(t: Board, width: int, height: int, d: Cell, x: Cell)
    requires Value(t, d) == 1 && IsNeighbour(width, height, d, x) && IsMine(Value(t, x))
    requires forall e | e != x :: !IsMine(Value(t, e))
    ensures CellIsValid(t, width, height, d.row, d.column)
  {
    assert Around(t, width, height, d, IsMine) == {x};
    assert {} <= Around(t, width, height, d, IsUnknown);
  }

  // ---------------------------------------------------------------------------
  // Corners, unknown cells, and how a board may change

  /** The first UNKNOWN of (0, 0), (0, height - 1), (width - 1, 0); otherwise (width - 1, height - 1). */
  function CornerTarget(g: Board, width: int, height: int): (c: Cell)
    ensures c in [Cell(0, 0), Cell(0, height - 1), Cell(width - 1, 0), Cell(width - 1, height - 1)]
  {
    if IsUnknown(Value(g, Cell(0, 0))) then Cell(0, 0)
    else if IsUnknown(Value(g, Cell(0, height - 1))) then Cell(0, height - 1)
    else if IsUnknown(Value(g, Cell(width - 1, 0))) then Cell(width - 1, 0)
    else Cell(width - 1, height - 1)
  }

  /** The board after sweeping the corner target and writing `count` there. */
  function AfterCorner(g: Board, width: int, height: int, count: int): Board {
    Overwrite(g, {CornerTarget(g, width, height)}, count)
  }

  /**
   * On a board of at least 2 x 2 whose corners are all UNKNOWN, four corner
   * sweeps (each writing some count) open the four corners in turn, each
   * once; a fifth finds its target swept and does nothing.
   */
  lemma CornersInTurn(g: Board, width: int, height: int, n1: nat, n2: nat, n3: nat, n4: nat)
    requires 2 <= width && 2 <= height && Shaped(g, width, height)
    requires forall c | c in [Cell(0, 0), Cell(0, height - 1), Cell(width - 1, 0), Cell(width - 1, height - 1)] ::
               IsUnknown(Value(g, c))
    ensures CornerTarget(g, width, height) == Cell(0, 0)
    ensures var g1 := AfterCorner(g, width, height, n1);
            && CornerTarget(g1, width, height) == Cell(0, height - 1)
            && var g2 := AfterCorner(g1, width, height, n2);
            && CornerTarget(g2, width, height) == Cell(width - 1, 0)
            && var g3 := AfterCorner(g2, width, height, n3);
            && CornerTarget(g3, width, height) == Cell(width - 1, height - 1)
            && var g4 := AfterCorner(g3, width, height, n4);
            !IsUnknown(Value(g4, CornerTarget(g4, width, height)))
  {
  }

  /** Solving the frontier's exact-sum problem decides no cell either way. */
  ghost predicate ConstraintStuck(g: Board, width: int, height: int, active: set<Cell>) {
    Determined(g, width, height, active, 1) == {} && Determined(g, width, height, active, 0) == {}
  }

  /** No corner is left to sweep: the corner sweep_corner_cell settles on is not UNKNOWN. */
  predicate CornersDone(g: Board, width: int, height: int) {
    !IsUnknown(Value(g, CornerTarget(g, width, height)))
  }

  /** The UNKNOWN cells: the candidates of a random sweep. */
  function UnknownCells(g: Board, width: int, height: int): (r: set<Cell>)
    ensures forall c :: c in r <==> InBounds(width, height, c) && IsUnknown(Value(g, c))
  {
    set c | c in AllCells(width, height) && IsUnknown(Value(g, c))
  }

  /** Every value is UNKNOWN, MINE, or a count of at most eight. */
  ghost predicate WellValued(g: Board, width: int, height: int) {
    forall c {:trigger Value(g, c)} | InBounds(width, height, c) :: IsUnknown(Value(g, c)) || IsMine(Value(g, c)) || 0 <= Value(g, c) <= 8
  }

  /** From `before` to `after` only UNKNOWN cells changed, each into MINE or a count. */
  ghost predicate Refines(before: Board, after: Board, width: int, height: int) {
    forall c {:trigger Value(after, c)} | InBounds(width, height, c) ::
      Value(after, c) == Value(before, c) ||
      (IsUnknown(Value(before, c)) && (IsMine(Value(after, c)) || 0 <= Value(after, c) <= 8))
  }

  /** Two boards of the same shape with the same values are the same board. */
  lemma SameBoard(a: Board, b: Board, width: int, height: int)
    requires Shaped(a, width, height) && Shaped(b, width, height)
    requires forall c | InBounds(width, height, c) :: Value(a, c) == Value(b, c)
    ensures a == b
  {
    forall row | 0 <= row < height ensures a[row] == b[row] {
      forall column | 0 <= column < width ensures a[row][column] == b[row][column] {
        assert Value(a, Cell(column, row)) == Value(b, Cell(column, row));
      }
    }
  }

  /** `after` is `before` with the one in-bounds cell c set to v. */
  ghost predicate Updated(before: Board, after: Board, width: int, height: int, c: Cell, v: int) {
    forall d {:trigger Value(after, d)} | InBounds(width, height, d) :: Value(after, d) == if d == c then v else Value(before, d)
  }

  /** The cells of `cells` and all their in-bounds neighbours: what add_active_cells_at adds for each. */
  function Neighbourhoods(width: int, height: int, cells: set<Cell>): set<Cell> {
    set c, d | c in cells && d in ClosedNeighbourhood(width, height, c) :: d
  }

  lemma NeighbourhoodsAdd(width: int, height: int, cells: set<Cell>, c: Cell)
    ensures Neighbourhoods(width, height, cells + {c}) ==
            Neighbourhoods(width, height, cells) + ClosedNeighbourhood(width, height, c)
  {
  }

  /** Setting the trial cells back to UNKNOWN restores the board the trial started from. */
  lemma TrialRestored(g: Board, width: int, height: int, unknowns: set<Cell>, choice: set<Cell>)
    requires Shaped(g, width, height)
    requires forall u | u in unknowns :: IsUnknown(Value(g, u))
    requires choice <= unknowns
    ensures Overwrite(Trial(g, unknowns, choice), unknowns, UNKNOWN) == g
  {
    SameBoard(Overwrite(Trial(g, unknowns, choice), unknowns, UNKNOWN), g, width, height);
  }
}
