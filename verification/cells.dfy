/**
 * Board positions and adjacency, shared by the mine field and the solver.
 * A position is written (column, row), as the source passes it around; the
 * boards themselves are indexed row first.
 */
module Cells {

  datatype Cell = Cell(column: int, row: int)

  predicate InBounds(width: int, height: int, c: Cell) {
    0 <= c.column < width && 0 <= c.row < height
  }

  /** Declarative adjacency: another in-bounds cell at Chebyshev distance 1. */
  predicate IsNeighbour(width: int, height: int, centre: Cell, d: Cell) {
    && InBounds(width, height, d)
    && d != centre
    && -1 <= d.column - centre.column <= 1
    && -1 <= d.row - centre.row <= 1
  }

  predicate Distinct<T(==)>(s: seq<T>) {
    forall i, j | 0 <= i < j < |s| :: s[i] != s[j]
  }

  function SetOf<T>(s: seq<T>): set<T> {
    set x | x in s
  }

  /** The one-element list holding (column, row) when that position is on the board. */
  function Keep(width: int, height: int, column: int, row: int): seq<Cell> {
    if InBounds(width, height, Cell(column, row)) then [Cell(column, row)] else []
  }

  /** The in-bounds cells of one row at column offsets -1, 0, 1, the middle one only when asked. */
  function NeighbourRow(width: int, height: int, column: int, row: int, withMiddle: bool): (r: seq<Cell>)
    ensures |r| <= if withMiddle then 3 else 2
    ensures Distinct(r)
    ensures forall d {:trigger d in r} :: d in r <==>
      InBounds(width, height, d) && d.row == row && -1 <= d.column - column <= 1 && (withMiddle || d.column != column)
  {
    Keep(width, height, column - 1, row)
    + (if withMiddle then Keep(width, height, column, row) else [])
    + Keep(width, height, column + 1, row)
  }

  lemma SetOfSnoc<T>(s: seq<T>, x: T)
    ensures SetOf(s + [x]) == SetOf(s) + {x}
  {
  }

  lemma DistinctCons<T>(h: T, rest: seq<T>)
    requires Distinct(rest) && h !in rest
    ensures Distinct([h] + rest)
  {
    var x := [h] + rest;
    forall i, j | 0 <= i < j < |x| ensures x[i] != x[j] {
      if i == 0 {
        assert x[j] == rest[j - 1];
      } else {
        assert x[i] == rest[i - 1] && x[j] == rest[j - 1];
      }
    }
  }

  lemma DistinctAppend<T>(a: seq<T>, b: seq<T>)
    requires Distinct(a) && Distinct(b)
    requires forall x :: x in a ==> x !in b
    ensures Distinct(a + b)
  {
    forall i, j | 0 <= i < j < |a + b| ensures (a + b)[i] != (a + b)[j] {
      if j >= |a| && i < |a| {
        assert (a + b)[i] in a && (a + b)[j] in b;
      }
    }
  }

  /**
   * The in-bounds neighbours of (column, row) in the order the source lists
   * them: row offsets -1, 0, 1 outside, column offsets -1, 0, 1 inside, the
   * centre left out.
   */
  function Neighbours(width: int, height: int, column: int, row: int): (r: seq<Cell>)
    ensures |r| <= 8
    ensures forall d :: d in r <==> IsNeighbour(width, height, Cell(column, row), d)
    ensures Distinct(r)
  {
    var above := NeighbourRow(width, height, column, row - 1, true);
    var level := NeighbourRow(width, height, column, row, false);
    var below := NeighbourRow(width, height, column, row + 1, true);
    DistinctAppend(above, level);
    DistinctAppend(above + level, below);
    above + level + below
  }

  /** A cell together with its in-bounds neighbours. */
  function ClosedNeighbourhood(width: int, height: int, c: Cell): (r: set<Cell>)
    ensures forall d :: d in r <==> d == c || IsNeighbour(width, height, c, d)
  {
    {c} + SetOf(Neighbours(width, height, c.column, c.row))
  }

  /** The elements of `s` that satisfy `p`, in order. */
  function Filter<T(!new,==)>(s: seq<T>, p: T -> bool): (r: seq<T>)
    ensures |r| <= |s|
    ensures forall x :: x in r <==> x in s && p(x)
    ensures Distinct(s) ==> Distinct(r)
  {
    if s == [] then []
    else (if p(s[0]) then [s[0]] else []) + Filter(s[1..], p)
  }

  lemma {:induction false} FilterAppend<T(!new)>(a: seq<T>, b: seq<T>, p: T -> bool)
    ensures Filter(a + b, p) == Filter(a, p) + Filter(b, p)
  {
    if a == [] {
      assert a + b == b;
    } else {
      assert (a + b)[1..] == a[1..] + b;
      FilterAppend(a[1..], b, p);
    }
  }

  /** Every position of a width x height board. */
  function AllCells(width: int, height: int): (r: set<Cell>)
    ensures forall c :: c in r <==> InBounds(width, height, c)
  {
    set row, column | 0 <= row < height && 0 <= column < width :: Cell(column, row)
  }

  function RowCells(width: int, row: int): (r: set<Cell>)
    ensures forall c {:trigger c in r} :: c in r <==> 0 <= c.column < width && c.row == row
  {
    set column | 0 <= column < width :: Cell(column, row)
  }

  lemma {:induction false} RowCellsCount(width: nat, row: int)
    ensures |RowCells(width, row)| == width
  {
    if width > 0 {
      RowCellsCount(width - 1, row);
      var shorter, last := RowCells(width - 1, row), Cell(width - 1, row);
      assert RowCells(width, row) == shorter + {last} by {
        forall c | c in RowCells(width, row) ensures c in shorter + {last} {
          if c.column < width - 1 {
            assert c in shorter;
          }
        }
      }
      assert last !in shorter;
    } else {
      assert RowCells(width, row) == {};
    }
  }

  /** A width x height board has width * height positions. */
  lemma {:induction false} AllCellsCount(width: nat, height: nat)
    ensures |AllCells(width, height)| == width * height
  {
    if height > 0 {
      AllCellsCount(width, height - 1);
      RowCellsCount(width, height - 1);
      var earlier, last := AllCells(width, height - 1), RowCells(width, height - 1);
      assert AllCells(width, height) == earlier + last;
      assert earlier !! last;
      assert |earlier + last| == |earlier| + |last|;
      assert width * height == width * (height - 1) + width;
    } else {
      assert AllCells(width, height) == {};
    }
  }

  lemma SubsetCardinality<T>(a: set<T>, b: set<T>)
    requires a <= b
    ensures |a| <= |b|
  {
    assert b == a + (b - a);
  }

  /** A list without repetitions has as many elements as its set. */
  lemma {:induction false} DistinctCard<T>(s: seq<T>)
    requires Distinct(s)
    ensures |SetOf(s)| == |s|
  {
    if s != [] {
      var last := s[|s| - 1];
      var front := s[..|s| - 1];
      assert Distinct(front);
      DistinctCard(front);
      assert SetOf(s) == SetOf(front) + {last};
      assert last !in SetOf(front);
    }
  }

  /** A set has a subset of every size up to its own. */
  lemma {:induction false} SubsetOfSize<T>(s: set<T>, k: nat)
    requires k <= |s|
    ensures exists sub :: sub <= s && |sub| == k
  {
    if k > 0 {
      var x :| x in s;
      SubsetOfSize(s - {x}, k - 1);
      var sub :| sub <= s - {x} && |sub| == k - 1;
      assert sub + {x} <= s && |sub + {x}| == k;
    } else {
      assert {} <= s;
    }
  }

  /** The elements of a set, each once, in the order the set yields them. */
  method ListOf<T>(s: set<T>) returns (xs: seq<T>)
    ensures SetOf(xs) == s && Distinct(xs)
  {
    xs := [];
    var rest := s;
    while rest != {}
      invariant SetOf(xs) + rest == s && SetOf(xs) !! rest && Distinct(xs)
    {
      var x :| x in rest;
      xs := xs + [x];
      rest := rest - {x};
    }
  }
}
