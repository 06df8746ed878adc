/** Secant search on the derivative, `sectant_search`: the chord through
    (x0, df(x0)) and (x1, df(x1)) is followed to its root until
    |df(x1)| <= tol. */
module Secant {
  import opened Common

  /** One table row. Row 0 has placeholders in its estimate, value,
      derivative and gap columns; every later row has all four. The last
      four columns are the pair x0, x1 after the update and df at each. */
  datatype Row = Row(iter: nat, x: Option<real>, fx: Option<real>, dfx: Option<real>, gap: Option<real>,
                     x0: real, x1: real, d0: real, d1: real)

  /** The secant update: the root of the chord through (x0, d0), (x1, d1). */
  function SecantPoint(x0: real, x1: real, d0: real, d1: real): real
    requires d1 != d0
  {
    x1 - d1 * (x1 - x0) / (d1 - d0)
  }

  /** The first row: the starting pair and df there, taken with df directly
      (not counted). */
  function StartRow(df: real -> real, x0: real, x1: real): Row
  {
    Row(0, None, None, None, None, x0, x1, df(x0), df(x1))
  }

  /** The row recorded after a pass that moved the pair to (x0, x1); f and
      df are taken directly (not counted). */
  function StepRow(f: real -> real, df: real -> real, iter: nat, x0: real, x1: real): Row
  {
    Row(iter, Some(x1), Some(f(x1)), Some(df(x1)), Some(Abs(x0 - x1)), x0, x1, df(x0), df(x1))
  }

  /** The rows the loop appends from the pair (x0, x1) on, the passes
      numbered after `iter`: the test |df(x1)| > tol, the update, and its
      row. Equal derivatives make the update divide by zero. `fuel` bounds
      the number of passes. */
  function Loop(f: real -> real, df: real -> real, tol: real, iter: nat, x0: real, x1: real, fuel: nat): Result<seq<Row>>
    decreases fuel
  {
    if Abs(df(x1)) <= tol then Ok([])
    else if fuel == 0 then Err(OutOfFuel)
    else
      var d0, d1 := df(x0), df(x1);
      if d1 == d0 then Err(SingularUpdate)
      else
        var x2 := SecantPoint(x0, x1, d0, d1);
        Prepend([StepRow(f, df, iter + 1, x1, x2)], Loop(f, df, tol, iter + 1, x1, x2, fuel - 1))
  }

  /** The whole search: the start row, then the loop. There is no argument
      check. */
  function Search(f: real -> real, df: real -> real, x0: real, x1: real, tol: real, fuel: nat): Result<seq<Row>>
  {
    Prepend([StartRow(df, x0, x1)], Loop(f, df, tol, 0, x0, x1, fuel))
  }

  /** The default tolerance of `sectant_search`. It is not negative, so
      `AffineStopsAtOnce` covers a default call. */
  const DefaultTol: real := 0.0001

  /** What a run hands back: the table, the number of counted evaluations
      of df, and the final estimate x1. */
  datatype Run = Run(table: seq<Row>, calls: nat, xMin: real)

  method SecantSearch(f: real -> real, df: real -> real, x0: real, x1: real, tol: real, fuel: nat)
    returns (r: Result<Run>)
    ensures r.Err? ==> Search(f, df, x0, x1, tol, fuel) == Err(r.error)
    ensures r.Ok? ==> Search(f, df, x0, x1, tol, fuel) == Ok(r.value.table)
    ensures r.Ok? ==> r.value.calls == 3 * (|r.value.table| - 1) + 1
    ensures r.Ok? ==> r.value.xMin == r.value.table[|r.value.table| - 1].x1 && Abs(df(r.value.xMin)) <= tol
  {
    var calls: nat := 0;
    var iter: nat := 0;
    var p0, p1 := x0, x1;
    var table := [Row(iter, None, None, None, None, p0, p1, df(p0), df(p1))];
    var left := fuel;
    while true
      invariant |table| == iter + 1 && calls == 3 * iter
      invariant table[|table| - 1].x1 == p1
      invariant Search(f, df, x0, x1, tol, fuel) == Prepend(table, Loop(f, df, tol, iter, p0, p1, left))
      decreases left
    {
      var g;
      g, calls := CountedCall(df, p1, calls);
      if Abs(g) <= tol {
        break;
      }
      if left == 0 {
        return Err(OutOfFuel);
      }
      iter := iter + 1;
      ghost var before, q0, q1 := table, p0, p1;
      var moved;
      moved, p0, p1, calls := Update(df, p0, p1, calls);
      if !moved {
        LoopSingular(f, df, tol, iter - 1, q0, q1, left);
        return Err(SingularUpdate);
      }
      LoopUnfolds(f, df, tol, iter - 1, q0, q1, left);
      table := table + [StepRow(f, df, iter, p0, p1)];
      PrependTwice(before, [StepRow(f, df, iter, p0, p1)], Loop(f, df, tol, iter, p0, p1, left - 1));
      left := left - 1;
    }
    assert table + [] == table;
    return Ok(Run(table, calls, p1));
  }

  /** The update of one pass: df at both points (two counted calls), then
      the pair moves to (x1, chord root), unless the two derivatives are
      equal and the division fails. */
  method Update(df: real -> real, x0: real, x1: real, calls: nat) returns (moved: bool, x0': real, x1': real, calls': nat)
    ensures moved <==> df(x1) != df(x0)
    ensures moved ==> x0' == x1 && x1' == SecantPoint(x0, x1, df(x0), df(x1))
    ensures calls' == calls + 2
  {
    var d0, d1;
    d0, calls' := CountedCall(df, x0, calls);
    d1, calls' := CountedCall(df, x1, calls');
    if d1 - d0 == 0.0 {
      return false, x0, x1, calls';
    }
    moved := true;
    x0', x1' := x1, SecantPoint(x0, x1, d0, d1);
  }

  /** One pass of the loop, when it neither stops nor fails. */
  lemma LoopUnfolds(f: real -> real, df: real -> real, tol: real, iter: nat, x0: real, x1: real, fuel: nat)
    requires tol < Abs(df(x1)) && 0 < fuel && df(x1) != df(x0)
    ensures Loop(f, df, tol, iter, x0, x1, fuel) ==
            Prepend([StepRow(f, df, iter + 1, x1, SecantPoint(x0, x1, df(x0), df(x1)))],
                    Loop(f, df, tol, iter + 1, x1, SecantPoint(x0, x1, df(x0), df(x1)), fuel - 1))
  {
  }

  /** A pass that finds equal derivatives fails. */
  lemma LoopSingular(f: real -> real, df: real -> real, tol: real, iter: nat, x0: real, x1: real, fuel: nat)
    requires tol < Abs(df(x1)) && 0 < fuel && df(x1) == df(x0)
    ensures Loop(f, df, tol, iter, x0, x1, fuel) == Err(SingularUpdate)
  {
  }

  /** The update lands where the chord through (x0, d0) and (x1, d1)
      crosses zero: d0 (x1 - p) == d1 (x0 - p), the division-free form of
      d0 + (d1 - d0) (p - x0) / (x1 - x0) == 0. */
  lemma ChordRoot(x0: real, x1: real, d0: real, d1: real)
    requires d1 != d0
    ensures var p := SecantPoint(x0, x1, d0, d1);
            d0 * (x1 - p) == d1 * (x0 - p)
  {
    var q := (x1 - x0) / (d1 - d0);
    var p := SecantPoint(x0, x1, d0, d1);
    assert x1 - x0 == (d1 - d0) * q;
    assert d1 * (x1 - x0) / (d1 - d0) == d1 * q;
    assert x1 - p == d1 * q;
    assert x0 - p == d0 * q;
    MulAssoc(d0, d1, q);
    MulAssoc(d1, d0, q);
  }

  /** What a row after a pass records: the estimate is the new x1 with f
      and df there, the gap is |x0 - x1| of the new pair. */
  predicate Filled(f: real -> real, df: real -> real, row: Row)
  {
    row.x == Some(row.x1) && row.fx == Some(f(row.x1)) && row.dfx == Some(df(row.x1))
    && row.gap == Some(Abs(row.x0 - row.x1))
  }

  /** Pass i failed the stop test, its derivatives differed, and it moved
      the pair to that of row i + 1: the old x1 becomes x0 and the chord
      root becomes x1. */
  predicate Passed(tol: real, rows: seq<Row>, i: nat)
    requires i < |rows| - 1
  {
    tol < Abs(rows[i].d1) && rows[i].d1 != rows[i].d0
    && rows[i + 1].x0 == rows[i].x1
    && rows[i + 1].x1 == SecantPoint(rows[i].x0, rows[i].x1, rows[i].d0, rows[i].d1)
  }

  /** The shape of a completed table whose first row is numbered `iter`:
      the derivative columns are df at the pair, every row after the first
      is filled, every row but the last is followed by an update, and the
      last one passed the stop test. */
  predicate Completed(f: real -> real, df: real -> real, tol: real, iter: nat, rows: seq<Row>)
  {
    1 <= |rows|
    && (forall i :: 0 <= i < |rows| ==>
          rows[i].iter == iter + i && rows[i].d0 == df(rows[i].x0) && rows[i].d1 == df(rows[i].x1))
    && (forall i :: 0 < i < |rows| ==> Filled(f, df, rows[i]))
    && (forall i :: 0 <= i < |rows| - 1 ==> Passed(tol, rows, i))
    && Abs(rows[|rows| - 1].d1) <= tol
  }

  lemma {:induction false} LoopCompleted(f: real -> real, df: real -> real, tol: real, iter: nat, x0: real, x1: real,
                                         fuel: nat, row: Row, rows: seq<Row>)
    requires row.iter == iter && row.x0 == x0 && row.x1 == x1 && row.d0 == df(x0) && row.d1 == df(x1)
    requires Prepend([row], Loop(f, df, tol, iter, x0, x1, fuel)) == Ok(rows)
    ensures Completed(f, df, tol, iter, rows)
    ensures rows[0] == row
    ensures |rows| <= fuel + 1
    decreases fuel
  {
    if Abs(df(x1)) <= tol {
      assert rows == [row];
    } else {
      var x2 := SecantPoint(x0, x1, df(x0), df(x1));
      var next := StepRow(f, df, iter + 1, x1, x2);
      var tail := Loop(f, df, tol, iter + 1, x1, x2, fuel - 1);
      PrependTwice([row], [next], tail);
      var rest := Prepend([next], tail).value;
      assert rows == [row] + rest;
      LoopCompleted(f, df, tol, iter + 1, x1, x2, fuel - 1, next, rest);
      forall i | 0 <= i < |rows|
        ensures rows[i].iter == iter + i && rows[i].d0 == df(rows[i].x0) && rows[i].d1 == df(rows[i].x1)
      {
        if i > 0 {
          assert rows[i] == rest[i - 1];
        }
      }
      forall i | 0 < i < |rows|
        ensures Filled(f, df, rows[i])
      {
        assert rows[i] == rest[i - 1];
      }
      forall i | 0 <= i < |rows| - 1
        ensures Passed(tol, rows, i)
      {
        if i > 0 {
          assert rows[i] == rest[i - 1] && rows[i + 1] == rest[i];
          assert Passed(tol, rest, i - 1);
        }
      }
    }
  }

  /** A finished secant run: the table starts with the placeholder row of
      the starting pair, has the shape above, and its last x1 has
      |df(x1)| <= tol; the projected lists have a placeholder first and the
      estimate and the signed derivative after it. */
  lemma SearchCompleted(f: real -> real, df: real -> real, x0: real, x1: real, tol: real, fuel: nat, rows: seq<Row>)
    requires Search(f, df, x0, x1, tol, fuel) == Ok(rows)
    ensures Completed(f, df, tol, 0, rows)
    ensures rows[0] == StartRow(df, x0, x1)
    ensures |rows| <= fuel + 1
    ensures Abs(df(rows[|rows| - 1].x1)) <= tol
    ensures Convergence(rows)[0] == None && Tolerance(rows)[0] == None
    ensures forall i :: 0 < i < |rows| ==>
              Convergence(rows)[i] == Some(rows[i].x1) && Tolerance(rows)[i] == Some(df(rows[i].x1))
  {
    LoopCompleted(f, df, tol, 0, x0, x1, fuel, StartRow(df, x0, x1), rows);
  }

  /** There is no argument check: a run fails only on equal derivatives or
      when the iteration bound runs out. */
  lemma {:induction false} LoopErrors(f: real -> real, df: real -> real, tol: real, iter: nat, x0: real, x1: real, fuel: nat)
    ensures Loop(f, df, tol, iter, x0, x1, fuel).Err? ==>
              Loop(f, df, tol, iter, x0, x1, fuel).error in {SingularUpdate, OutOfFuel}
    decreases fuel
  {
    if fuel > 0 && df(x1) != df(x0) {
      LoopErrors(f, df, tol, iter + 1, x1, SecantPoint(x0, x1, df(x0), df(x1)), fuel - 1);
    }
  }

  lemma SearchErrors(f: real -> real, df: real -> real, x0: real, x1: real, tol: real, fuel: nat)
    ensures Search(f, df, x0, x1, tol, fuel).Err? ==>
              Search(f, df, x0, x1, tol, fuel).error in {SingularUpdate, OutOfFuel}
  {
    LoopErrors(f, df, tol, 0, x0, x1, fuel);
  }

  /** Starting from two equal points the first update divides by zero. */
  lemma SamePointsSingular(f: real -> real, df: real -> real, x: real, tol: real, fuel: nat)
    requires tol < Abs(df(x)) && 0 < fuel
    ensures Search(f, df, x, x, tol, fuel) == Err(SingularUpdate)
  {
  }

  /** On an affine derivative df(x) == m x + c (a quadratic objective) with
      m != 0, one update from two distinct points lands on the root. */
  lemma AffineRoot(df: real -> real, m: real, c: real, x0: real, x1: real)
    requires forall x :: df(x) == m * x + c
    requires m != 0.0 && x0 != x1
    ensures df(x1) != df(x0)
    ensures df(SecantPoint(x0, x1, df(x0), df(x1))) == 0.0
  {
    var d0, d1 := df(x0), df(x1);
    assert d1 - d0 == m * (x1 - x0);
    assert m * (x1 - x0) != 0.0;
    var p := SecantPoint(x0, x1, d0, d1);
    ChordRoot(x0, x1, d0, d1);
    assert (m * x0 + c) * (x1 - p) == (m * x1 + c) * (x0 - p);
    assert (m * p + c) * (x1 - x0) == 0.0;
  }

  /** So on a quadratic objective the search stops after at most one
      update, given one pass of fuel and a non-negative tolerance. */
  lemma AffineStopsAtOnce(f: real -> real, df: real -> real, m: real, c: real, x0: real, x1: real, tol: real, fuel: nat)
    requires forall x :: df(x) == m * x + c
    requires m != 0.0 && x0 != x1 && 0.0 <= tol && 0 < fuel
    ensures Search(f, df, x0, x1, tol, fuel).Ok?
    ensures |Search(f, df, x0, x1, tol, fuel).value| <= 2
  {
    if tol < Abs(df(x1)) {
      AffineRoot(df, m, c, x0, x1);
      var x2 := SecantPoint(x0, x1, df(x0), df(x1));
      assert Loop(f, df, tol, 1, x1, x2, fuel - 1) == Ok([]);
    }
  }

  /** The `convergence` list: the estimate column, a placeholder in row 0. */
  function Convergence(rows: seq<Row>): (xs: seq<Option<real>>)
    ensures |xs| == |rows|
    ensures forall i :: 0 <= i < |rows| ==> xs[i] == rows[i].x
  {
    seq(|rows|, i requires 0 <= i < |rows| => rows[i].x)
  }

  /** The `tolerance` list: the signed df(x1) column, a placeholder in row 0. */
  function Tolerance(rows: seq<Row>): (ts: seq<Option<real>>)
    ensures |ts| == |rows|
    ensures forall i :: 0 <= i < |rows| ==> ts[i] == rows[i].dfx
  {
    seq(|rows|, i requires 0 <= i < |rows| => rows[i].dfx)
  }
}
