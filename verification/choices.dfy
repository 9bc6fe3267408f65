/**
 * The k-element selections of a list, in the order itertools.combinations
 * yields them: by position, lexicographically.
 */
module Choices {
  import opened Cells

  /** [x] + each list of `ss`. */
  function Prepend<T>(x: T, ss: seq<seq<T>>): (r: seq<seq<T>>)
    ensures |r| == |ss|
    ensures forall i | 0 <= i < |ss| :: r[i] == [x] + ss[i]
  {
    seq(|ss|, i requires 0 <= i < |ss| => [x] + ss[i])
  }

  /** The selections that take s[0], then those that skip it. */
  function Combinations<T>(s: seq<T>, k: nat): seq<seq<T>>
    decreases |s|
  {
    if k == 0 then [[]]
    else if s == [] then []
    else Prepend(s[0], Combinations(s[1..], k - 1)) + Combinations(s[1..], k)
  }

  lemma SetOfCons<T>(h: T, rest: seq<T>)
    ensures SetOf([h] + rest) == {h} + SetOf(rest)
  {
  }

  /** One selection of Combinations(s, k), for s non-empty and k positive: it takes s[0] or skips it. */
  lemma Unfold<T>(s: seq<T>, k: nat, x: seq<T>)
    requires s != [] && k > 0 && x in Combinations(s, k)
    ensures (exists rest :: rest in Combinations(s[1..], k - 1) && x == [s[0]] + rest) || x in Combinations(s[1..], k)
  {
    var taking := Prepend(s[0], Combinations(s[1..], k - 1));
    if x in taking {
      var i :| 0 <= i < |taking| && taking[i] == x;
      assert Combinations(s[1..], k - 1)[i] in Combinations(s[1..], k - 1);
    }
  }

  /** Every selection has k different elements of s. */
  lemma {:induction false} CombinationsSound<T>(s: seq<T>, k: nat, x: seq<T>)
    requires Distinct(s) && x in Combinations(s, k)
    ensures Distinct(x) && |x| == k && SetOf(x) <= SetOf(s)
    decreases |s|
  {
    if k == 0 {
      assert x == [];
    } else if s != [] {
      var tail := s[1..];
      assert Distinct(tail);
      Unfold(s, k, x);
      if rest :| rest in Combinations(tail, k - 1) && x == [s[0]] + rest {
        CombinationsSound(tail, k - 1, rest);
        ConsSound(s, rest);
      } else {
        CombinationsSound(tail, k, x);
        assert SetOf(tail) <= SetOf(s);
      }
    }
  }

  /** The head of a list without repetitions, before some of its tail's elements, repeats nothing. */
  lemma ConsSound<T>(s: seq<T>, rest: seq<T>)
    requires s != [] && Distinct(s) && Distinct(rest) && SetOf(rest) <= SetOf(s[1..])
    ensures Distinct([s[0]] + rest) && SetOf([s[0]] + rest) <= SetOf(s)
  {
    assert s[0] !in SetOf(s[1..]);
    DistinctCons(s[0], rest);
    SetOfCons(s[0], rest);
    assert SetOf(s[1..]) <= SetOf(s);
  }

  /** Every k-element subset of s is the set of some selection. */
  lemma {:induction false} CombinationsComplete<T>(s: seq<T>, k: nat, sub: set<T>)
    requires Distinct(s) && sub <= SetOf(s) && |sub| == k
    ensures exists x :: x in Combinations(s, k) && SetOf(x) == sub
    decreases |s|
  {
    if k == 0 {
      assert sub == {};
      var x: seq<T> := [];
      assert SetOf(x) == sub;
      assert Combinations(s, k)[0] == x;
    } else {
      var y :| y in sub;
      assert y in s;
      var head, tail := s[0], s[1..];
      assert Distinct(tail);
      assert s == [head] + tail;
      SetOfCons(head, tail);
      assert head !in SetOf(tail);
      if head in sub {
        CombinationsComplete(tail, k - 1, sub - {head});
        var rest :| rest in Combinations(tail, k - 1) && SetOf(rest) == sub - {head};
        Taking(head, tail, k, rest);
        TakingSet(head, rest, sub);
      } else {
        CombinationsComplete(tail, k, sub);
        var x :| x in Combinations(tail, k) && SetOf(x) == sub;
        Skipping(head, tail, k, x);
      }
    }
  }

  /** A selection of k - 1 from the tail, with the head in front, is a selection of k. */
  lemma Taking<T>(head: T, tail: seq<T>, k: nat, rest: seq<T>)
    requires k > 0 && rest in Combinations(tail, k - 1)
    ensures [head] + rest in Combinations([head] + tail, k)
  {
    var s := [head] + tail;
    assert s[1..] == tail;
    var shorter := Combinations(tail, k - 1);
    var i :| 0 <= i < |shorter| && shorter[i] == rest;
    var taking := Prepend(head, shorter);
    assert taking[i] == [head] + rest;
    assert taking[i] in Combinations(s, k);
  }

  lemma TakingSet<T>(head: T, rest: seq<T>, sub: set<T>)
    requires head in sub && SetOf(rest) == sub - {head}
    ensures SetOf([head] + rest) == sub
  {
    SetOfCons(head, rest);
  }

  /** A selection of k from the tail is a selection of k. */
  lemma Skipping<T>(head: T, tail: seq<T>, k: nat, x: seq<T>)
    requires k > 0 && x in Combinations(tail, k)
    ensures x in Combinations([head] + tail, k)
  {
    assert ([head] + tail)[1..] == tail;
  }

  // ---------------------------------------------------------------------------
  // Intersecting over the selections that pass a test

  /** The elements of `pool` that every selection passing `ok` takes. */
  ghost function TakenByAll<T>(pool: set<T>, choices: seq<seq<T>>, ok: set<T> -> bool): set<T> {
    set x | x in pool && forall i | 0 <= i < |choices| && ok(SetOf(choices[i])) :: x in choices[i]
  }

  /** The elements of `pool` that no selection passing `ok` takes. */
  ghost function TakenByNone<T>(pool: set<T>, choices: seq<seq<T>>, ok: set<T> -> bool): set<T> {
    set x | x in pool && forall i | 0 <= i < |choices| && ok(SetOf(choices[i])) :: x !in choices[i]
  }

  /** One more selection intersects the running results with what it takes, or leaves them as they were. */
  lemma TakenStep<T>(pool: set<T>, choices: seq<seq<T>>, ok: set<T> -> bool, i: int)
    requires 0 <= i < |choices|
    ensures ok(SetOf(choices[i])) ==>
              && TakenByAll(pool, choices[..i + 1], ok) == TakenByAll(pool, choices[..i], ok) * SetOf(choices[i])
              && TakenByNone(pool, choices[..i + 1], ok) == TakenByNone(pool, choices[..i], ok) * (pool - SetOf(choices[i]))
    ensures !ok(SetOf(choices[i])) ==>
              && TakenByAll(pool, choices[..i + 1], ok) == TakenByAll(pool, choices[..i], ok)
              && TakenByNone(pool, choices[..i + 1], ok) == TakenByNone(pool, choices[..i], ok)
  {
    var before, after := choices[..i], choices[..i + 1];
    assert forall k | 0 <= k < i :: after[k] == before[k];
    assert after[i] == choices[i];
  }

  /** The results over all selections are contained in those over any prefix. */
  lemma TakenShrinks<T>(pool: set<T>, choices: seq<seq<T>>, ok: set<T> -> bool, i: int)
    requires 0 <= i <= |choices|
    ensures TakenByAll(pool, choices, ok) <= TakenByAll(pool, choices[..i], ok)
    ensures TakenByNone(pool, choices, ok) <= TakenByNone(pool, choices[..i], ok)
  {
    assert forall k | 0 <= k < i :: choices[..i][k] == choices[k];
  }
}
