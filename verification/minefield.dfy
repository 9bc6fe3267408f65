/**
 * The mine field: a width x height board whose mines are placed lazily, on
 * the first sweep, so that the first swept cell is never a mine; sweeping a
 * cell either explodes or reports how many of its neighbours are mines.
 * The random placement is modelled as an arbitrary choice among the indices
 * the source's retry loop would accept.
 */
module Mines {
  import opened Wrappers
  import opened Cells

  datatype CellStatus = Safe | Mine

  /** A laid-out field, indexed field[row][column]. */
  type Layout = seq<seq<CellStatus>>

  /** The ValueErrors the constructor raises, in the order it checks for them. */
  datatype ConfigError = NonPositiveWidth | NonPositiveHeight | NegativeMineCount | TooManyMines

  /** What sweep_cell raises: ValueError for either coordinate, or ExplosionException. */
  datatype SweepError = RowOutOfRange | ColumnOutOfRange | Explosion

  predicate ValidConfig(width: int, height: int, numberOfMines: int) {
    0 < width && 0 < height && 0 <= numberOfMines < width * height
  }

  predicate IsLayout(f: Layout, width: int, height: int) {
    |f| == height && forall row | 0 <= row < height :: |f[row]| == width
  }

  /** The positions holding a mine. */
  function MineCells(f: Layout, width: int, height: int): (r: set<Cell>)
    requires IsLayout(f, width, height)
    ensures forall c {:trigger c in r} :: c in r <==> InBounds(width, height, c) && f[c.row][c.column] == Mine
  {
    set c | c in AllCells(width, height) && f[c.row][c.column] == Mine
  }

  function IsMineIn(f: Layout, d: Cell): bool {
    0 <= d.row < |f| && 0 <= d.column < |f[d.row]| && f[d.row][d.column] == Mine
  }

  /** IsMineIn as a selector, built in one place so that every use is the same function. */
  function MinedIn(f: Layout): Cell -> bool {
    d => IsMineIn(f, d)
  }

  /** Reference definition of a swept count: the mines among the in-bounds neighbours. */
  function AdjacentMines(f: Layout, width: int, height: int, column: int, row: int): (n: nat)
    ensures n <= 8
  {
    |Filter(Neighbours(width, height, column, row), MinedIn(f))|
  }

  /** Mines laid down since the layout was all Safe, each a different cell. */
  lemma PlaceMine(f: Layout, width: int, height: int, c: Cell)
    requires IsLayout(f, width, height) && InBounds(width, height, c) && f[c.row][c.column] == Safe
    ensures IsLayout(f[c.row := f[c.row][c.column := Mine]], width, height)
    ensures |MineCells(f[c.row := f[c.row][c.column := Mine]], width, height)| == |MineCells(f, width, height)| + 1
  {
    var g := f[c.row := f[c.row][c.column := Mine]];
    assert MineCells(g, width, height) == MineCells(f, width, height) + {c};
  }

  /** The index the retry loop picks is split into an in-range (column, row). */
  lemma IndexInRange(width: int, height: int, index: int)
    requires 0 < width && 0 <= index < width * height
    ensures 0 <= index % width < width
    ensures 0 <= index / width < height
  {
  }

  /** Every in-range (column, row) is reached by exactly one index. */
  lemma IndexOf(width: int, height: int, c: Cell)
    requires 0 < width && InBounds(width, height, c)
    ensures 0 <= c.row * width + c.column < width * height
    ensures (c.row * width + c.column) / width == c.row
    ensures (c.row * width + c.column) % width == c.column
  {
    if c.row < height - 1 {
      MulAtLeast(height - 1 - c.row, width);
    }
    assert (height - 1 - c.row) * width + c.row * width == (height - 1) * width;
    assert (height - 1) * width + width == width * height;
    DivModUnique(c.row * width + c.column, width, c.row, c.column);
  }

  lemma DivModUnique(n: int, d: int, q: int, m: int)
    requires 0 < d && 0 <= m < d && n == q * d + m
    ensures n / d == q && n % d == m
  {
    var q', m' := n / d, n % d;
    assert q' * d + m' == q * d + m;
    assert (q' - q) * d == m - m';
    if q' > q {
      MulAtLeast(q' - q, d);
    } else if q' < q {
      MulAtLeast(q - q', d);
    }
  }

  lemma {:induction false} MulAtLeast(k: int, d: int)
    requires 1 <= k && 0 < d
    ensures d <= k * d
  {
    if k > 1 {
      MulAtLeast(k - 1, d);
      assert k * d == (k - 1) * d + d;
    }
  }

  /**
   * While fewer than width * height - 1 mines are placed, some cell other
   * than the first swept one is still Safe, so the retry loop can accept.
   */
  lemma {:induction false} SafeCellRemains(f: Layout, width: int, height: int, first: Cell)
    requires IsLayout(f, width, height) && 0 < width && 0 < height && InBounds(width, height, first)
    requires |MineCells(f, width, height)| < width * height - 1
    ensures exists c :: InBounds(width, height, c) && c != first && f[c.row][c.column] == Safe
  {
    var all := AllCells(width, height);
    AllCellsCount(width, height);
    if forall c :: InBounds(width, height, c) && c != first ==> f[c.row][c.column] == Mine {
      assert all - {first} <= MineCells(f, width, height);
      assert |all - {first}| == width * height - 1;
      SubsetCardinality(all - {first}, MineCells(f, width, height));
      assert false;
    }
  }


  class MineField {
    const width: int
    const height: int
    const numberOfMines: int
    /** None until the first sweep lays the mines. */
    var field: Option<Layout>

    ghost predicate Valid()
      reads this
    {
      && ValidConfig(width, height, numberOfMines)
      && (field.Some? ==> IsLayout(field.value, width, height)
                          && |MineCells(field.value, width, height)| == numberOfMines)
    }

    /** The private part of construction, once the configuration has been checked. */
    constructor (width: int, height: int, numberOfMines: int)
      requires ValidConfig(width, height, numberOfMines)
      ensures Valid() && field == None
      ensures this.width == width && this.height == height && this.numberOfMines == numberOfMines
    {
      this.width := width;
      this.height := height;
      this.numberOfMines := numberOfMines;
      field := None;
    }

    /**
     * Lay numberOfMines mines on a fresh all-Safe layout, never on
     * (firstRow, firstColumn). Each round picks an index that the source's
     * randrange retry loop would accept.
     */
    method FillMineField(firstRow: int, firstColumn: int)
      requires Valid() && field == None
      requires 0 <= firstRow < height && 0 <= firstColumn < width
      modifies this
      ensures Valid() && field.Some?
      ensures field.value[firstRow][firstColumn] == Safe
    {
      var f: Layout := seq(height, _ => seq(width, _ => Safe));
      assert MineCells(f, width, height) == {};
      var minesLeft := numberOfMines;
      while minesLeft > 0
        invariant IsLayout(f, width, height)
        invariant 0 <= minesLeft <= numberOfMines
        invariant |MineCells(f, width, height)| == numberOfMines - minesLeft
        invariant f[firstRow][firstColumn] == Safe
        decreases minesLeft
      {
        SafeCellRemains(f, width, height, Cell(firstColumn, firstRow));
        var c :| InBounds(width, height, c) && c != Cell(firstColumn, firstRow) && f[c.row][c.column] == Safe;
        IndexOf(width, height, c);
        forall index | 0 <= index < width * height
          ensures 0 <= index % width < width && 0 <= index / width < height
        {
          IndexInRange(width, height, index);
        }
        var randomIndex :| && 0 <= randomIndex < width * height
                           && (randomIndex / width, randomIndex % width) != (firstRow, firstColumn)
                           && f[randomIndex / width][randomIndex % width] == Safe;
        var column := randomIndex % width;
        var row := randomIndex / width;
        PlaceMine(f, width, height, Cell(column, row));
        f := f[row := f[row][column := Mine]];
        minesLeft := minesLeft - 1;
      }
      field := Some(f);
    }

    /**
     * Sweep (column, row): reject an out-of-range row, then column; lay the
     * mines on the first in-range sweep; explode on a mine; otherwise count
     * the mines among the eight neighbours.
     */
    method SweepCell(column: int, row: int) returns (r: Result<nat, SweepError>)
      requires Valid()
      modifies this
      ensures Valid()
      ensures r == Failure(RowOutOfRange) <==> !(0 <= row < height)
      ensures r == Failure(ColumnOutOfRange) <==> 0 <= row < height && !(0 <= column < width)
      ensures !InBounds(width, height, Cell(column, row)) ==> field == old(field)
      ensures InBounds(width, height, Cell(column, row)) ==> field.Some?
      ensures old(field).Some? ==> field == old(field)
      ensures old(field).None? && InBounds(width, height, Cell(column, row)) ==>
                field.value[row][column] == Safe && r.Success?
      ensures InBounds(width, height, Cell(column, row)) ==>
                (r == Failure(Explosion) <==> field.value[row][column] == Mine)
      ensures InBounds(width, height, Cell(column, row)) ==>
                (r.Failure? <==> IsMineIn(field.value, Cell(column, row)))
      ensures r.Success? ==>
                InBounds(width, height, Cell(column, row)) &&
                r.value == AdjacentMines(field.value, width, height, column, row)
    {
      if 0 > row || row >= height {
        return Failure(RowOutOfRange);
      }
      if 0 > column || column >= width {
        return Failure(ColumnOutOfRange);
      }
      if field.None? {
        FillMineField(row, column);
      }
      var f := field.value;
      if f[row][column] == Mine {
        return Failure(Explosion);
      }
      var adjacentMines := CountAdjacentMines(f, width, height, column, row);
      return Success(adjacentMines);
    }
  }

  /** The source's eight neighbour tests, accumulated one at a time. */
  method CountAdjacentMines(f: Layout, width: int, height: int, column: int, row: int) returns (adjacentMines: nat)
    requires IsLayout(f, width, height) && InBounds(width, height, Cell(column, row))
    ensures adjacentMines == AdjacentMines(f, width, height, column, row)
  {
    adjacentMines := 0;
    // The reference count of the neighbours tested so far.
    ghost var tested := 0;
    // N
    if row > 0 && f[row - 1][column] == Mine {
      adjacentMines := adjacentMines + 1;
    }
    tested := tested + Indicator(f, width, height, column, row - 1);
    assert adjacentMines == tested;
    // S
    if row < height - 1 && f[row + 1][column] == Mine {
      adjacentMines := adjacentMines + 1;
    }
    tested := tested + Indicator(f, width, height, column, row + 1);
    assert adjacentMines == tested;
    // W
    if column > 0 && f[row][column - 1] == Mine {
      adjacentMines := adjacentMines + 1;
    }
    tested := tested + Indicator(f, width, height, column - 1, row);
    assert adjacentMines == tested;
    // E
    if column < width - 1 && f[row][column + 1] == Mine {
      adjacentMines := adjacentMines + 1;
    }
    tested := tested + Indicator(f, width, height, column + 1, row);
    assert adjacentMines == tested;
    // NW
    if row > 0 && column > 0 && f[row - 1][column - 1] == Mine {
      adjacentMines := adjacentMines + 1;
    }
    tested := tested + Indicator(f, width, height, column - 1, row - 1);
    assert adjacentMines == tested;
    // NE
    if row > 0 && column < width - 1 && f[row - 1][column + 1] == Mine {
      adjacentMines := adjacentMines + 1;
    }
    tested := tested + Indicator(f, width, height, column + 1, row - 1);
    assert adjacentMines == tested;
    // SE
    if row < height - 1 && column < width - 1 && f[row + 1][column + 1] == Mine {
      adjacentMines := adjacentMines + 1;
    }
    tested := tested + Indicator(f, width, height, column + 1, row + 1);
    assert adjacentMines == tested;
    // SW
    if row < height - 1 && column > 0 && f[row + 1][column - 1] == Mine {
      adjacentMines := adjacentMines + 1;
    }
    tested := tested + Indicator(f, width, height, column - 1, row + 1);
    assert adjacentMines == tested;
    EightNeighbourCount(f, width, height, column, row);
  }

  function Indicator(f: Layout, width: int, height: int, column: int, row: int): nat {
    if InBounds(width, height, Cell(column, row)) && IsMineIn(f, Cell(column, row)) then 1 else 0
  }

  /** The reference count, written out as the eight neighbour tests the source makes. */
  lemma EightNeighbourCount(f: Layout, width: int, height: int, column: int, row: int)
    requires IsLayout(f, width, height)
    ensures AdjacentMines(f, width, height, column, row) ==
      Indicator(f, width, height, column - 1, row - 1) + Indicator(f, width, height, column, row - 1)
      + Indicator(f, width, height, column + 1, row - 1)
      + Indicator(f, width, height, column - 1, row) + Indicator(f, width, height, column + 1, row)
      + Indicator(f, width, height, column - 1, row + 1) + Indicator(f, width, height, column, row + 1)
      + Indicator(f, width, height, column + 1, row + 1)
  {
    var p := MinedIn(f);
    var rowAbove := NeighbourRow(width, height, column, row - 1, true);
    var rowLevel := NeighbourRow(width, height, column, row, false);
    var rowBelow := NeighbourRow(width, height, column, row + 1, true);
    FilterAppend(rowAbove + rowLevel, rowBelow, p);
    FilterAppend(rowAbove, rowLevel, p);
    RowCount(f, width, height, column, row - 1, true);
    RowCount(f, width, height, column, row, false);
    RowCount(f, width, height, column, row + 1, true);
  }

  lemma RowCount(f: Layout, width: int, height: int, column: int, row: int, withMiddle: bool)
    requires IsLayout(f, width, height)
    ensures |Filter(NeighbourRow(width, height, column, row, withMiddle), MinedIn(f))| ==
      Indicator(f, width, height, column - 1, row)
      + (if withMiddle then Indicator(f, width, height, column, row) else 0)
      + Indicator(f, width, height, column + 1, row)
  {
    var p := MinedIn(f);
    var left := Keep(width, height, column - 1, row);
    var middle: seq<Cell> := if withMiddle then Keep(width, height, column, row) else [];
    var right := Keep(width, height, column + 1, row);
    FilterAppend(left + middle, right, p);
    FilterAppend(left, middle, p);
    KeepCount(f, width, height, column - 1, row);
    KeepCount(f, width, height, column + 1, row);
    if withMiddle {
      KeepCount(f, width, height, column, row);
    }
  }

  lemma KeepCount(f: Layout, width: int, height: int, column: int, row: int)
    ensures |Filter(Keep(width, height, column, row), MinedIn(f))| == Indicator(f, width, height, column, row)
  {
    var k := Keep(width, height, column, row);
    if k != [] {
      assert k[1..] == [];
    }
  }

  /**
   * Construction: the checks of the source's constructor, in its order,
   * then an unfilled field.
   */
  method Create(width: int, height: int, numberOfMines: int) returns (r: Result<MineField, ConfigError>)
    ensures r.Success? <==> ValidConfig(width, height, numberOfMines)
    ensures r == Failure(NonPositiveWidth) <==> width <= 0
    ensures r == Failure(NonPositiveHeight) <==> 0 < width && height <= 0
    ensures r == Failure(NegativeMineCount) <==> 0 < width && 0 < height && numberOfMines < 0
    ensures r == Failure(TooManyMines) <==> 0 < width && 0 < height && 0 <= numberOfMines && numberOfMines >= width * height
    ensures r.Success? ==> fresh(r.value) && r.value.Valid() && r.value.field == None
    ensures r.Success? ==> r.value.width == width && r.value.height == height && r.value.numberOfMines == numberOfMines
  {
    if width <= 0 {
      return Failure(NonPositiveWidth);
    }
    if height <= 0 {
      return Failure(NonPositiveHeight);
    }
    if numberOfMines < 0 {
      return Failure(NegativeMineCount);
    }
    if numberOfMines >= width * height {
      return Failure(TooManyMines);
    }
    var m := new MineField(width, height, numberOfMines);
    return Success(m);
  }
}
