/**
 * The meaning of the exact-sum constraint problems the solver and the
 * regions hand to their constraint library: 0/1 values for a set of cells
 * such that the cells of each constraint sum exactly to its target. The
 * library itself is foreign; here its solution set is a specification
 * (Solutions), an enumeration (Solve) is proved to list exactly that set
 * without repetition, and the tally both callers run over the solutions
 * (Tally) is proved to count, per cell and value, the solutions that give
 * the cell that value.
 */
module ExactSum {
  import opened Cells

  /** "The values of `cells` add up to exactly `target`." */
  datatype Constraint = Constraint(target: int, cells: seq<Cell>)

  /** One solution: a value per variable. */
  type Assignment = map<Cell, int>

  /** A Counter of the values one cell takes; a missing key counts 0. */
  type Counter = map<int, nat>

  predicate Binary(m: Assignment) {
    forall c | c in m :: m[c] == 0 || m[c] == 1
  }

  function Sum(m: Assignment, cells: seq<Cell>): int
    requires forall c | c in cells :: c in m
  {
    if cells == [] then 0 else m[cells[0]] + Sum(m, cells[1..])
  }

  predicate Holds(m: Assignment, k: Constraint) {
    (forall c | c in k.cells :: c in m) && Sum(m, k.cells) == k.target
  }

  /** The variables of a problem include every cell its constraints mention. */
  predicate WellFormed(vars: set<Cell>, cs: set<Constraint>) {
    forall k, c | k in cs && c in k.cells :: c in vars
  }

  predicate IsSolution(vars: set<Cell>, cs: set<Constraint>, m: Assignment) {
    m.Keys == vars && Binary(m) && forall k | k in cs :: Holds(m, k)
  }

  ghost function Pick(s: set<Cell>): (c: Cell)
    requires s != {}
    ensures c in s
  {
    var c :| c in s; c
  }

  /** Every 0/1 assignment to `vars`. */
  ghost function Space(vars: set<Cell>): set<Assignment>
    decreases vars
  {
    if vars == {} then {map[]}
    else
      var v := Pick(vars);
      (set m | m in Space(vars - {v}) :: m[v := 0]) + (set m | m in Space(vars - {v}) :: m[v := 1])
  }

  lemma {:induction false} InSpace(vars: set<Cell>, m: Assignment)
    ensures m in Space(vars) <==> m.Keys == vars && Binary(m)
    decreases vars
  {
    if vars != {} {
      var v := Pick(vars);
      if m.Keys == vars && Binary(m) {
        var rest := map c | c in m && c != v :: m[c];
        InSpace(vars - {v}, rest);
        assert rest[v := m[v]] == m;
      }
      if m in Space(vars) {
        var rest :| rest in Space(vars - {v}) && (m == rest[v := 0] || m == rest[v := 1]);
        InSpace(vars - {v}, rest);
      }
    } else if m.Keys == {} {
      assert m == map[];
    }
  }

  /** The solution set of a problem, as the constraint library defines it. */
  ghost function Solutions(vars: set<Cell>, cs: set<Constraint>): set<Assignment> {
    set m | m in Space(vars) && IsSolution(vars, cs, m)
  }

  lemma InSolutions(vars: set<Cell>, cs: set<Constraint>, m: Assignment)
    ensures m in Solutions(vars, cs) <==> IsSolution(vars, cs, m)
  {
    InSpace(vars, m);
  }

  /** The solutions that give `cell` the value `b`. */
  ghost function SolutionsWith(vars: set<Cell>, cs: set<Constraint>, cell: Cell, b: int): set<Assignment> {
    set m | m in Solutions(vars, cs) && cell in m && m[cell] == b
  }

  /** `cell` has the value `b` in every solution, and there is at least one. */
  ghost predicate Forced(vars: set<Cell>, cs: set<Constraint>, cell: Cell, b: int) {
    Solutions(vars, cs) != {} && forall m | m in Solutions(vars, cs) :: cell in m && m[cell] == b
  }

  /** Each solution gives a variable exactly one of the values 0 and 1. */
  lemma {:induction false} SolutionsSplit(vars: set<Cell>, cs: set<Constraint>, cell: Cell)
    requires cell in vars
    ensures |SolutionsWith(vars, cs, cell, 0)| + |SolutionsWith(vars, cs, cell, 1)| == |Solutions(vars, cs)|
  {
    var all, zeros, ones := Solutions(vars, cs), SolutionsWith(vars, cs, cell, 0), SolutionsWith(vars, cs, cell, 1);
    forall m | m in all ensures m in zeros + ones {
      InSolutions(vars, cs, m);
    }
    assert all == zeros + ones;
    assert zeros !! ones;
  }

  /** A variable is forced to b exactly when no solution gives it the other value and some solution exists. */
  lemma {:induction false} ForcedByCounts(vars: set<Cell>, cs: set<Constraint>, cell: Cell, b: int)
    requires cell in vars && (b == 0 || b == 1)
    ensures Forced(vars, cs, cell, b) <==>
              |SolutionsWith(vars, cs, cell, b)| > 0 && |SolutionsWith(vars, cs, cell, 1 - b)| == 0
  {
    var all := Solutions(vars, cs);
    SolutionsSplit(vars, cs, cell);
    if Forced(vars, cs, cell, b) {
      assert SolutionsWith(vars, cs, cell, 1 - b) == {};
    }
    if |SolutionsWith(vars, cs, cell, 1 - b)| == 0 && |SolutionsWith(vars, cs, cell, b)| > 0 {
      var others := SolutionsWith(vars, cs, cell, 1 - b);
      assert others == {};
      forall m | m in all ensures cell in m && m[cell] == b {
        InSolutions(vars, cs, m);
        assert m !in others;
      }
    }
  }

  /** The cells a problem's solutions assign, when it has any: exactly its variables. */
  lemma SolutionDomain(vars: set<Cell>, cs: set<Constraint>, m: Assignment)
    requires m in Solutions(vars, cs)
    ensures m.Keys == vars && Binary(m)
  {
    InSolutions(vars, cs, m);
  }

  // ---------------------------------------------------------------------------
  // Enumeration

  /** The assignments of `ms`, each extended by v := b. */
  function Extend(ms: seq<Assignment>, v: Cell, b: int): (r: seq<Assignment>)
    ensures |r| == |ms|
    ensures forall i | 0 <= i < |ms| :: r[i] == ms[i][v := b]
  {
    seq(|ms|, i requires 0 <= i < |ms| => ms[i][v := b])
  }

  /** Every 0/1 assignment to the cells of `vs`, each listed once. */
  function Assignments(vs: seq<Cell>): seq<Assignment>
    decreases |vs|
  {
    if vs == [] then [map[]]
    else
      var rest := Assignments(vs[1..]);
      Extend(rest, vs[0], 0) + Extend(rest, vs[0], 1)
  }

  lemma {:induction false} AssignmentsComplete(vs: seq<Cell>)
    requires Distinct(vs)
    ensures forall m :: m in Assignments(vs) <==> m.Keys == SetOf(vs) && Binary(m)
    decreases |vs|
  {
    if vs != [] {
      var v, tail := vs[0], vs[1..];
      assert Distinct(tail);
      AssignmentsComplete(tail);
      var rest := Assignments(tail);
      assert SetOf(vs) == SetOf(tail) + {v};
      assert v !in SetOf(tail);
      forall m: Assignment ensures m in Assignments(vs) <==> m.Keys == SetOf(vs) && Binary(m) {
        ExtendedMember(rest, SetOf(tail), v, m);
      }
    } else {
      forall m: Assignment | m.Keys == SetOf(vs) ensures m == map[] {
        assert m.Keys == {};
      }
    }
  }

  /** One step of AssignmentsComplete: extending the assignments to `vars` by v. */
  lemma ExtendedMember(rest: seq<Assignment>, vars: set<Cell>, v: Cell, m: Assignment)
    requires v !in vars
    requires forall m' :: m' in rest <==> m'.Keys == vars && Binary(m')
    ensures m in Extend(rest, v, 0) + Extend(rest, v, 1) <==> m.Keys == vars + {v} && Binary(m)
  {
    if m.Keys == vars + {v} && Binary(m) {
      ExtendedReaches(rest, vars, v, m);
    }
    if m in Extend(rest, v, 0) + Extend(rest, v, 1) {
      ExtendedStays(rest, vars, v, m);
    }
  }

  /** Every 0/1 assignment to vars + {v} extends one of `rest`. */
  lemma ExtendedReaches(rest: seq<Assignment>, vars: set<Cell>, v: Cell, m: Assignment)
    requires v !in vars
    requires forall m' :: m' in rest <==> m'.Keys == vars && Binary(m')
    requires m.Keys == vars + {v} && Binary(m)
    ensures m in Extend(rest, v, 0) + Extend(rest, v, 1)
  {
    var shorter := map c | c in m && c != v :: m[c];
    assert shorter in rest;
    var i :| 0 <= i < |rest| && rest[i] == shorter;
    assert shorter[v := m[v]] == m;
    if m[v] == 0 {
      assert Extend(rest, v, 0)[i] == m;
    } else {
      assert Extend(rest, v, 1)[i] == m;
    }
  }

  /** Every extension of one of `rest` is a 0/1 assignment to vars + {v}. */
  lemma ExtendedStays(rest: seq<Assignment>, vars: set<Cell>, v: Cell, m: Assignment)
    requires forall m' :: m' in rest <==> m'.Keys == vars && Binary(m')
    requires m in Extend(rest, v, 0) + Extend(rest, v, 1)
    ensures m.Keys == vars + {v} && Binary(m)
  {
    var zeros, ones := Extend(rest, v, 0), Extend(rest, v, 1);
    var i: int, b: int;
    if m in zeros {
      i :| 0 <= i < |zeros| && zeros[i] == m;
      b := 0;
    } else {
      assert m in ones;
      i :| 0 <= i < |ones| && ones[i] == m;
      b := 1;
    }
    var base := rest[i];
    assert base in rest;
    ExtendOne(base, v, b);
  }

  lemma ExtendOne(base: Assignment, v: Cell, b: int)
    requires Binary(base) && (b == 0 || b == 1)
    ensures base[v := b].Keys == base.Keys + {v} && Binary(base[v := b])
  {
  }


  lemma {:induction false} AssignmentsDistinct(vs: seq<Cell>)
    requires Distinct(vs)
    ensures Distinct(Assignments(vs))
    decreases |vs|
  {
    if vs != [] {
      var v, tail := vs[0], vs[1..];
      assert Distinct(tail);
      AssignmentsDistinct(tail);
      AssignmentsComplete(tail);
      var rest := Assignments(tail);
      assert v !in SetOf(tail);
      assert forall m | m in rest :: v !in m;
      ExtendBothDistinct(rest, v);
    }
  }

  /** Setting a fresh variable to 0 in each, then to 1 in each, repeats nothing. */
  lemma ExtendBothDistinct(rest: seq<Assignment>, v: Cell)
    requires Distinct(rest) && forall m | m in rest :: v !in m
    ensures Distinct(Extend(rest, v, 0) + Extend(rest, v, 1))
  {
    var zeros, ones := Extend(rest, v, 0), Extend(rest, v, 1);
    forall i, j | 0 <= i < j < |zeros + ones| ensures (zeros + ones)[i] != (zeros + ones)[j] {
      var n := |zeros|;
      if j < n {
        ExtendInjective(rest, v, 0, i, j);
      } else if i >= n {
        ExtendInjective(rest, v, 1, i - n, j - n);
      } else {
        assert (zeros + ones)[i][v] == 0 && (zeros + ones)[j][v] == 1;
      }
    }
  }

  lemma ExtendInjective(ms: seq<Assignment>, v: Cell, b: int, i: int, j: int)
    requires Distinct(ms) && forall m | m in ms :: v !in m
    requires 0 <= i < j < |ms|
    ensures Extend(ms, v, b)[i] != Extend(ms, v, b)[j]
  {
    var r := Extend(ms, v, b);
    assert r[i] - {v} == ms[i];
    assert r[j] - {v} == ms[j];
  }

  /** The constraint list as a selector on assignments. */
  function SatisfiesAll(cs: seq<Constraint>): Assignment -> bool {
    m => forall k | k in cs :: Holds(m, k)
  }

  /** All solutions of the problem (variables `vs`, constraints `cs`). */
  function Solve(vs: seq<Cell>, cs: seq<Constraint>): seq<Assignment> {
    Filter(Assignments(vs), SatisfiesAll(cs))
  }

  /** Solve lists exactly the solutions the library defines, none twice. */
  lemma {:induction false} SolveExact(vs: seq<Cell>, cs: seq<Constraint>)
    requires Distinct(vs)
    ensures SetOf(Solve(vs, cs)) == Solutions(SetOf(vs), SetOf(cs))
    ensures Distinct(Solve(vs, cs))
  {
    AssignmentsComplete(vs);
    AssignmentsDistinct(vs);
    var vars, constraints := SetOf(vs), SetOf(cs);
    forall m: Assignment ensures m in Solve(vs, cs) <==> m in Solutions(vars, constraints) {
      InSolutions(vars, constraints, m);
    }
  }

  // ---------------------------------------------------------------------------
  // Tallying

  /** How many of `sols` give `cell` the value `b`. */
  function Occurrences(sols: seq<Assignment>, cell: Cell, b: int): nat {
    if sols == [] then 0
    else
      var last := sols[|sols| - 1];
      Occurrences(sols[..|sols| - 1], cell, b) + (if cell in last && last[cell] == b then 1 else 0)
  }

  /** The assignments of `sols` that give `cell` the value `b`. */
  ghost function Giving(sols: seq<Assignment>, cell: Cell, b: int): set<Assignment> {
    set m | m in sols && cell in m && m[cell] == b
  }

  lemma GivingSnoc(front: seq<Assignment>, last: Assignment, cell: Cell, b: int)
    ensures cell in last && last[cell] == b ==> Giving(front + [last], cell, b) == Giving(front, cell, b) + {last}
    ensures !(cell in last && last[cell] == b) ==> Giving(front + [last], cell, b) == Giving(front, cell, b)
  {
    assert forall m :: m in front + [last] <==> m in front || m == last;
  }

  /** Over a list without repetitions, Occurrences is the size of a set. */
  lemma {:induction false} OccurrencesCount(sols: seq<Assignment>, cell: Cell, b: int)
    requires Distinct(sols)
    ensures Occurrences(sols, cell, b) == |Giving(sols, cell, b)|
  {
    if sols != [] {
      var front, last := sols[..|sols| - 1], sols[|sols| - 1];
      assert Distinct(front);
      OccurrencesCount(front, cell, b);
      assert sols == front + [last];
      GivingSnoc(front, last, cell, b);
      if cell in last && last[cell] == b {
        assert last !in front;
        assert last !in Giving(front, cell, b);
      }
    }
  }

  /** 1 when `solution`, with the cells still `pending`, has already counted value b for `cell`. */
  function Counted(solution: Assignment, pending: set<Cell>, cell: Cell, b: int): nat {
    if cell in solution && cell !in pending && solution[cell] == b then 1 else 0
  }

  function Lookup(counts: map<Cell, Counter>, cell: Cell, b: int): nat {
    if cell in counts && b in counts[cell] then counts[cell][b] else 0
  }

  /** counts[cell].update([b]) on a defaultdict(Counter). */
  function Bump(counts: map<Cell, Counter>, cell: Cell, b: int): map<Cell, Counter> {
    var counter := if cell in counts then counts[cell] else map[];
    counts[cell := counter[b := (if b in counter then counter[b] else 0) + 1]]
  }

  /** Count every (cell, value) pair of one solution. */
  method TallyOne(counts: map<Cell, Counter>, solution: Assignment) returns (r: map<Cell, Counter>)
    requires forall cell, b | cell in counts :: b in counts[cell] <==> Lookup(counts, cell, b) > 0
    ensures forall cell, b :: Lookup(r, cell, b) == Lookup(counts, cell, b) + Counted(solution, {}, cell, b)
    ensures forall cell :: cell in r <==> cell in counts || cell in solution
    ensures forall cell, b | cell in r :: b in r[cell] <==> Lookup(r, cell, b) > 0
  {
    r := counts;
    var pending := solution.Keys;
    while pending != {}
      invariant pending <= solution.Keys
      invariant forall cell, b :: Lookup(r, cell, b) == Lookup(counts, cell, b) + Counted(solution, pending, cell, b)
      invariant forall cell :: cell in r <==> cell in counts || (cell in solution && cell !in pending)
      invariant forall cell, b | cell in r :: b in r[cell] <==> Lookup(r, cell, b) > 0
    {
      var cell :| cell in pending;
      BumpStep(counts, solution, r, pending, cell);
      pending := pending - {cell};
      r := Bump(r, cell, solution[cell]);
    }
  }

  /** Counting one more pair of the solution keeps the loop invariant of TallyOne. */
  lemma BumpStep(counts: map<Cell, Counter>, solution: Assignment, r: map<Cell, Counter>, pending: set<Cell>, cell: Cell)
    requires cell in pending && pending <= solution.Keys
    requires forall cell, b :: Lookup(r, cell, b) == Lookup(counts, cell, b) + Counted(solution, pending, cell, b)
    requires forall cell :: cell in r <==> cell in counts || (cell in solution && cell !in pending)
    requires forall cell, b | cell in r :: b in r[cell] <==> Lookup(r, cell, b) > 0
    ensures forall d, b :: Lookup(Bump(r, cell, solution[cell]), d, b) == Lookup(counts, d, b) + Counted(solution, pending - {cell}, d, b)
    ensures forall d :: d in Bump(r, cell, solution[cell]) <==> d in counts || (d in solution && d !in pending - {cell})
    ensures forall d, b | d in Bump(r, cell, solution[cell]) :: b in Bump(r, cell, solution[cell])[d] <==> Lookup(Bump(r, cell, solution[cell]), d, b) > 0
  {
    var r' := Bump(r, cell, solution[cell]);
    forall d, b ensures Lookup(r', d, b) == Lookup(counts, d, b) + Counted(solution, pending - {cell}, d, b) {
      if d != cell {
        assert Lookup(r', d, b) == Lookup(r, d, b);
        assert Counted(solution, pending - {cell}, d, b) == Counted(solution, pending, d, b);
      }
    }
  }

  /**
   * For every (cell, value) pair of every solution, count the value for the
   * cell. A cell is a key exactly when some solution assigns it, a value a
   * key of its Counter exactly when it was counted.
   */
  method Tally(solutions: seq<Assignment>) returns (counts: map<Cell, Counter>)
    ensures forall cell, b :: Lookup(counts, cell, b) == Occurrences(solutions, cell, b)
    ensures forall cell :: cell in counts <==> exists i | 0 <= i < |solutions| :: cell in solutions[i]
    ensures forall cell, b | cell in counts :: b in counts[cell] <==> Lookup(counts, cell, b) > 0
  {
    counts := map[];
    var i := 0;
    while i < |solutions|
      invariant 0 <= i <= |solutions|
      invariant forall cell, b :: Lookup(counts, cell, b) == Occurrences(solutions[..i], cell, b)
      invariant forall cell :: cell in counts <==> exists j | 0 <= j < i :: cell in solutions[j]
      invariant forall cell, b | cell in counts :: b in counts[cell] <==> Lookup(counts, cell, b) > 0
    {
      assert solutions[..i + 1][..i] == solutions[..i];
      counts := TallyOne(counts, solutions[i]);
      i := i + 1;
    }
    assert solutions[..i] == solutions;
  }

  // ---------------------------------------------------------------------------
  // Solving and tallying, as both callers do it

  /**
   * What a tally of a problem's solutions holds: per cell and value, how many
   * solutions give the cell that value; a cell is a key exactly when it is a
   * variable and the problem has a solution; a value is a key of a cell's
   * Counter exactly when it was counted.
   */
  ghost predicate Tallies(vars: set<Cell>, cs: set<Constraint>, counts: map<Cell, Counter>) {
    && (forall cell, b :: Lookup(counts, cell, b) == |SolutionsWith(vars, cs, cell, b)|)
    && (forall cell :: cell in counts <==> cell in vars && Solutions(vars, cs) != {})
    && (forall cell, b | cell in counts :: b in counts[cell] <==> Lookup(counts, cell, b) > 0)
  }

  /**
   * Hand the variables vs (each once) and the constraints cs to the solver,
   * then count, per cell, the values its solutions take.
   */
  method CountSolutions(vs: seq<Cell>, cs: seq<Constraint>) returns (counts: map<Cell, Counter>)
    requires Distinct(vs)
    ensures Tallies(SetOf(vs), SetOf(cs), counts)
  {
    var solutions := Solve(vs, cs);
    SolveExact(vs, cs);
    counts := Tally(solutions);
    var vars, constraints := SetOf(vs), SetOf(cs);
    forall cell, b ensures Lookup(counts, cell, b) == |SolutionsWith(vars, constraints, cell, b)| {
      OccurrencesCount(solutions, cell, b);
      assert Giving(solutions, cell, b) == SolutionsWith(vars, constraints, cell, b);
    }
    forall cell ensures cell in counts <==> cell in vars && Solutions(vars, constraints) != {} {
      if cell in counts {
        var i :| 0 <= i < |solutions| && cell in solutions[i];
        assert solutions[i] in SetOf(solutions);
        SolutionDomain(vars, constraints, solutions[i]);
      }
      if cell in vars && Solutions(vars, constraints) != {} {
        var m :| m in Solutions(vars, constraints);
        SolutionDomain(vars, constraints, m);
        assert m in SetOf(solutions);
        var i :| 0 <= i < |solutions| && solutions[i] == m;
      }
    }
  }

  /** A tallied value is one some solution gives the cell: 0 or 1. */
  lemma TalliedBinary(vars: set<Cell>, cs: set<Constraint>, counts: map<Cell, Counter>, cell: Cell, b: int)
    requires Tallies(vars, cs, counts) && cell in counts && b in counts[cell]
    ensures b == 0 || b == 1
  {
    var m :| m in SolutionsWith(vars, cs, cell, b);
    SolutionDomain(vars, cs, m);
  }

  /**
   * The solver's test on a tally, a Counter with a single value: that value
   * is 0 exactly when every solution clears the cell, and it is not 0 exactly
   * when every solution puts a mine there.
   */
  lemma TallyDecides(vars: set<Cell>, cs: set<Constraint>, counts: map<Cell, Counter>, cell: Cell)
    requires Tallies(vars, cs, counts)
    ensures (cell in counts && |counts[cell]| == 1 && 0 in counts[cell]) <==> cell in vars && Forced(vars, cs, cell, 0)
    ensures (cell in counts && |counts[cell]| == 1 && 0 !in counts[cell]) <==> cell in vars && Forced(vars, cs, cell, 1)
  {
    if cell in vars {
      ForcedByCounts(vars, cs, cell, 0);
      ForcedByCounts(vars, cs, cell, 1);
    }
    if cell in counts {
      CounterShape(vars, cs, counts, cell);
    }
  }

  /** A tallied Counter has the single key 0, the single key 1, or both. */
  lemma CounterShape(vars: set<Cell>, cs: set<Constraint>, counts: map<Cell, Counter>, cell: Cell)
    requires Tallies(vars, cs, counts) && cell in counts
    ensures (|counts[cell]| == 1 && 0 in counts[cell]) <==> Lookup(counts, cell, 0) > 0 && Lookup(counts, cell, 1) == 0
    ensures (|counts[cell]| == 1 && 0 !in counts[cell]) <==> Lookup(counts, cell, 1) > 0 && Lookup(counts, cell, 0) == 0
  {
    var counter := counts[cell];
    forall b | b in counter ensures b == 0 || b == 1 {
      TalliedBinary(vars, cs, counts, cell, b);
    }
    if 0 in counter && 1 in counter {
      assert counter.Keys == {0, 1};
    } else if 0 in counter {
      assert counter.Keys == {0};
    } else if 1 in counter {
      assert counter.Keys == {1};
    }
  }

  /**
   * The cells the solver decides from a tally: those whose Counter holds a
   * single value, which is 0 (b == 0) or not 0 (b == 1).
   */
  function Decided(counts: map<Cell, Counter>, b: int): set<Cell> {
    set d | d in counts && |counts[d]| == 1 && (0 in counts[d] <==> b == 0)
  }

  /** What the solver decides is exactly what every solution agrees on. */
  lemma DecidedForced(vars: set<Cell>, cs: set<Constraint>, counts: map<Cell, Counter>, b: int)
    requires Tallies(vars, cs, counts) && (b == 0 || b == 1)
    ensures Decided(counts, b) == set d | d in vars && Forced(vars, cs, d, b)
  {
    forall d ensures d in Decided(counts, b) <==> d in vars && Forced(vars, cs, d, b) {
      TallyDecides(vars, cs, counts, d);
    }
  }

  /** Every solution is counted once per variable: the two tallies of a cell add up to the number of solutions. */
  lemma TallySplit(vars: set<Cell>, cs: set<Constraint>, counts: map<Cell, Counter>, cell: Cell)
    requires Tallies(vars, cs, counts) && cell in counts
    ensures Lookup(counts, cell, 0) + Lookup(counts, cell, 1) == |Solutions(vars, cs)|
  {
    SolutionsSplit(vars, cs, cell);
  }
}
