/**
 * A region: a set of cells together with exact-sum constraints over them,
 * which can be merged with another region and asked, per cell, how often
 * each value occurs across the solutions of its constraints.
 */
module Regions {
  import opened Wrappers
  import opened Cells
  import opened ExactSum

  datatype Region = Region(cells: set<Cell>, constraints: seq<Constraint>)

  /** The cells, as a set, and a copy of the constraint list. */
  function NewRegion(cells: seq<Cell>, constraints: seq<Constraint>): (r: Region)
    ensures forall c :: Contains(r, c) <==> c in cells
    ensures r.constraints == constraints
  {
    Region(SetOf(cells), constraints)
  }

  predicate Contains(r: Region, c: Cell) {
    c in r.cells
  }

  /** a | b: the cells of both, the constraints of a followed by those of b. */
  function Union(a: Region, b: Region): (r: Region)
    ensures forall c :: Contains(r, c) <==> Contains(a, c) || Contains(b, c)
    ensures |r.constraints| == |a.constraints| + |b.constraints|
    ensures r.constraints[..|a.constraints|] == a.constraints && r.constraints[|a.constraints|..] == b.constraints
  {
    Region(a.cells + b.cells, a.constraints + b.constraints)
  }

  /** The solutions of a region's problem: its cells are the variables. */
  ghost function SolutionsOf(r: Region): set<Assignment> {
    Solutions(r.cells, SetOf(r.constraints))
  }

  /** The part of an assignment that falls on `cells`. */
  function Restrict(m: Assignment, cells: set<Cell>): (r: Assignment)
    ensures r.Keys == m.Keys * cells
    ensures forall c | c in r :: r[c] == m[c]
  {
    map c | c in m && c in cells :: m[c]
  }

  /** A sum over cells that an assignment and its restriction agree on is the same for both. */
  lemma {:induction false} SumRestrict(m: Assignment, cells: set<Cell>, list: seq<Cell>)
    requires forall c | c in list :: c in m && c in cells
    ensures Sum(Restrict(m, cells), list) == Sum(m, list)
  {
    if list != [] {
      SumRestrict(m, cells, list[1..]);
    }
  }

  /**
   * Merging never adds solutions to a self-contained region: restricted to
   * a's cells, every solution of a | b solves a.
   */
  lemma UnionRestricts(a: Region, b: Region, m: Assignment)
    requires WellFormed(a.cells, SetOf(a.constraints))
    requires m in SolutionsOf(Union(a, b))
    ensures Restrict(m, a.cells) in SolutionsOf(a)
  {
    var u := Union(a, b);
    InSolutions(u.cells, SetOf(u.constraints), m);
    var part := Restrict(m, a.cells);
    forall k | k in SetOf(a.constraints) ensures Holds(part, k) {
      assert k in SetOf(u.constraints);
      SumRestrict(m, a.cells, k.cells);
    }
    InSolutions(a.cells, SetOf(a.constraints), part);
  }

  /**
   * Per cell and value, the number of solutions of the region's constraints
   * (over 0/1 values of its cells) that give the cell that value. A
   * constraint over a cell that is not one of the region's cells makes the
   * library raise KeyError: the failure names such a cell.
   */
  method GetCellValues(region: Region) returns (r: Result<map<Cell, Counter>, Cell>)
    ensures r.Failure? <==> !WellFormed(region.cells, SetOf(region.constraints))
    ensures r.Failure? ==> r.error !in region.cells && exists k | k in region.constraints :: r.error in k.cells
    ensures r.Success? ==> Tallies(region.cells, SetOf(region.constraints), r.value)
    ensures r.Success? ==>
              forall cell | cell in r.value :: Lookup(r.value, cell, 0) + Lookup(r.value, cell, 1) == |SolutionsOf(region)|
    ensures r.Success? && SolutionsOf(region) == {} ==> r.value == map[]
    ensures r.Success? && SolutionsOf(region) != {} ==> r.value.Keys == region.cells
  {
    var constraints: seq<Constraint> := [];
    for i := 0 to |region.constraints|
      invariant constraints == region.constraints[..i]
      invariant WellFormed(region.cells, SetOf(constraints))
    {
      var k := region.constraints[i];
      if c :| c in k.cells && c !in region.cells {
        return Failure(c);
      }
      SetOfSnoc(constraints, k);
      constraints := constraints + [k];
    }
    assert constraints == region.constraints;
    var variables := ListOf(region.cells);
    var counts := CountSolutions(variables, constraints);
    forall cell | cell in counts ensures Lookup(counts, cell, 0) + Lookup(counts, cell, 1) == |SolutionsOf(region)| {
      TallySplit(region.cells, SetOf(region.constraints), counts, cell);
    }
    return Success(counts);
  }
}
