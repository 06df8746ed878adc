/** Directional (pattern) search, `directional_search`: a signed step h is
    tried from the best point so far; an improvement is taken and the step
    grows by 1.2, a failure keeps the point and the step is halved and
    turned round. */
module Directional {
  import opened Common

  /** The phase column: expansion while the step points forward, refinement
      otherwise (a zero step counts as refinement). */
  datatype Phase = Expansion | Refinement

  function PhaseOf(h: real): Phase
  {
    if h > 0.0 then Expansion else Refinement
  }

  /** The loop state: the best point so far, its value, and the signed step. */
  datatype State = State(x: real, fx: real, h: real)

  /** One table row: pass number, best point and value, |h| and the phase,
      all taken after the pass's update. */
  datatype Row = Row(iter: nat, x: real, fx: real, absH: real, phase: Phase)

  function RowOf(iter: nat, s: State): Row
  {
    Row(iter, s.x, s.fx, Abs(s.h), PhaseOf(s.h))
  }

  /** The signed step a row stands for: its |h| with the sign its phase shows. */
  function SignedStep(row: Row): real
  {
    if row.phase == Expansion then row.absH else -row.absH
  }

  /** A row's |h| and phase columns are those of one signed step: the
      column holds a magnitude, and the phase is that of the step they
      stand for. */
  predicate Signed(row: Row)
  {
    0.0 <= row.absH && row.phase == PhaseOf(SignedStep(row))
  }

  /** The step is recoverable from the row: |h| and the phase lose nothing. */
  lemma SignedStepRecovers(iter: nat, s: State)
    ensures SignedStep(RowOf(iter, s)) == s.h
    ensures RowOf(iter, s).phase == Expansion <==> 0.0 < s.h
    ensures Signed(RowOf(iter, s))
  {
  }

  /** For a row of that form, the |h| column is the magnitude of its step. */
  lemma SignedMagnitude(row: Row)
    requires Signed(row)
    ensures Abs(SignedStep(row)) == row.absH
  {
  }

  /** One trial from s: x + h is evaluated; a strict improvement moves there
      and stretches the step by 1.2, anything else stays and multiplies the
      step by -0.5. */
  function Trial(f: real -> real, s: State): (t: State)
    ensures t.fx <= s.fx
    ensures t.fx < s.fx <==> f(s.x + s.h) < s.fx
    ensures Abs(t.h) == (if t.fx < s.fx then 1.2 else 0.5) * Abs(s.h)
  {
    var xNew := s.x + s.h;
    var fNew := f(xNew);
    if fNew < s.fx then State(xNew, fNew, s.h * 1.2) else State(s.x, s.fx, s.h * -0.5)
  }

  /** The rows the loop appends from state s on, the passes numbered after
      `iter`: the test |h| > tol, a trial, and the row of the new state.
      `fuel` bounds the number of trials. */
  function Loop(f: real -> real, tol: real, iter: nat, s: State, fuel: nat): Result<seq<Row>>
    decreases fuel
  {
    if Abs(s.h) <= tol then Ok([])
    else if fuel == 0 then Err(OutOfFuel)
    else
      var t := Trial(f, s);
      Prepend([RowOf(iter + 1, t)], Loop(f, tol, iter + 1, t, fuel - 1))
  }

  /** The whole search: the step must exceed the tolerance; the start is
      evaluated and recorded as pass 0. */
  function Search(f: real -> real, x0: real, h: real, tol: real, fuel: nat): Result<seq<Row>>
  {
    if h <= tol then Err(InvalidParameter)
    else
      var s := State(x0, f(x0), h);
      Prepend([RowOf(0, s)], Loop(f, tol, 0, s, fuel))
  }

  /** What a run hands back: the table, the number of counted evaluations,
      and the final point, its value and the final step. */
  datatype Run = Run(table: seq<Row>, calls: nat, xMin: real, fMin: real, step: real)

  method DirectionalSearch(f: real -> real, x0: real, h: real, tol: real, fuel: nat)
    returns (r: Result<Run>)
    ensures r.Err? ==> Search(f, x0, h, tol, fuel) == Err(r.error)
    ensures r.Ok? ==> Search(f, x0, h, tol, fuel) == Ok(r.value.table)
    ensures r.Ok? ==> r.value.calls == |r.value.table|
    ensures r.Ok? ==> var last := r.value.table[|r.value.table| - 1];
                      r.value.xMin == last.x && r.value.fMin == last.fx
                      && r.value.step == SignedStep(last) && Abs(r.value.step) <= tol
  {
    if h <= tol {
      return Err(InvalidParameter);
    }
    var calls: nat := 0;
    var x := x0;
    var fx;
    fx, calls := CountedCall(f, x, calls);
    var step := h;
    var iter: nat := 0;
    var table := [Row(iter, x, fx, Abs(step), PhaseOf(step))];
    var left := fuel;
    assert Search(f, x0, h, tol, fuel) == Prepend(table, Loop(f, tol, iter, State(x, fx, step), left));
    while Abs(step) > tol
      invariant |table| == iter + 1 && calls == |table|
      invariant table[|table| - 1] == RowOf(iter, State(x, fx, step))
      invariant Search(f, x0, h, tol, fuel) == Prepend(table, Loop(f, tol, iter, State(x, fx, step), left))
      decreases left
    {
      if left == 0 {
        return Err(OutOfFuel);
      }
      ghost var t := Trial(f, State(x, fx, step));
      ghost var before := table;
      assert Loop(f, tol, iter, State(x, fx, step), left) == Prepend([RowOf(iter + 1, t)], Loop(f, tol, iter + 1, t, left - 1));
      var xNew := x + step;
      var fNew;
      fNew, calls := CountedCall(f, xNew, calls);
      if fNew < fx {
        x, fx := xNew, fNew;
        step := step * 1.2;
      } else {
        step := step * -0.5;
      }
      assert State(x, fx, step) == t;
      iter := iter + 1;
      table := table + [Row(iter, x, fx, Abs(step), PhaseOf(step))];
      PrependTwice(before, [RowOf(iter, t)], Loop(f, tol, iter, t, left - 1));
      left := left - 1;
    }
    assert table + [] == table;
    SignedStepRecovers(iter, State(x, fx, step));
    return Ok(Run(table, calls, x, fx, step));
  }

  /** What two successive rows say about the trial between them, in terms
      of the rows alone: the first row's step is tried from its point; a
      strict improvement is the next row's point with the step times 1.2,
      otherwise the point stays and the step is times -0.5. */
  predicate Follows(f: real -> real, prev: Row, next: Row)
  {
    var h := SignedStep(prev);
    if f(prev.x + h) < prev.fx then
      next.x == prev.x + h && next.fx == f(next.x) && SignedStep(next) == h * 1.2
    else
      next.x == prev.x && next.fx == prev.fx && SignedStep(next) == h * -0.5
  }

  /** Trial i failed the stop test and led to row i + 1. */
  predicate Passed(f: real -> real, tol: real, rows: seq<Row>, i: nat)
    requires i < |rows| - 1
  {
    tol < rows[i].absH && Follows(f, rows[i], rows[i + 1])
  }

  /** The shape of a completed table that starts at pass `iter`: rows
      numbered on from `iter`, each point recorded with its true value and
      each step as |h| and its phase, each row but the last followed by a
      trial, and the last one with |h| <= tol. */
  predicate Completed(f: real -> real, tol: real, iter: nat, rows: seq<Row>)
  {
    1 <= |rows|
    && (forall i :: 0 <= i < |rows| ==> rows[i].iter == iter + i && rows[i].fx == f(rows[i].x) && Signed(rows[i]))
    && (forall i :: 0 <= i < |rows| - 1 ==> Passed(f, tol, rows, i))
    && rows[|rows| - 1].absH <= tol
  }

  lemma TrialFollows(f: real -> real, iter: nat, s: State)
    requires s.fx == f(s.x)
    ensures Follows(f, RowOf(iter, s), RowOf(iter + 1, Trial(f, s)))
    ensures Trial(f, s).fx == f(Trial(f, s).x)
  {
    SignedStepRecovers(iter, s);
    SignedStepRecovers(iter + 1, Trial(f, s));
  }

  lemma {:induction false} LoopCompleted(f: real -> real, tol: real, iter: nat, s: State, fuel: nat, rows: seq<Row>)
    requires s.fx == f(s.x)
    requires Prepend([RowOf(iter, s)], Loop(f, tol, iter, s, fuel)) == Ok(rows)
    ensures Completed(f, tol, iter, rows)
    ensures rows[0] == RowOf(iter, s)
    ensures |rows| <= fuel + 1
    decreases fuel
  {
    var row := RowOf(iter, s);
    SignedStepRecovers(iter, s);
    if Abs(s.h) <= tol {
      assert rows == [row];
    } else {
      var t := Trial(f, s);
      var tail := Loop(f, tol, iter + 1, t, fuel - 1);
      PrependTwice([row], [RowOf(iter + 1, t)], tail);
      var rest := Prepend([RowOf(iter + 1, t)], tail).value;
      assert rows == [row] + rest;
      TrialFollows(f, iter, s);
      LoopCompleted(f, tol, iter + 1, t, fuel - 1, rest);
      forall i | 0 <= i < |rows|
        ensures rows[i].iter == iter + i && rows[i].fx == f(rows[i].x) && Signed(rows[i])
      {
        if i > 0 {
          assert rows[i] == rest[i - 1];
        }
      }
      forall i | 0 <= i < |rows| - 1
        ensures Passed(f, tol, rows, i)
      {
        if i > 0 {
          assert rows[i] == rest[i - 1] && rows[i + 1] == rest[i];
          assert Passed(f, tol, rest, i - 1);
        }
      }
    }
  }

  /** A finished directional run: the step exceeded the tolerance, the
      table starts with the start point as pass 0, has at least one trial,
      and has the shape above; the two projected lists match it. */
  lemma SearchCompleted(f: real -> real, x0: real, h: real, tol: real, fuel: nat, rows: seq<Row>)
    requires Search(f, x0, h, tol, fuel) == Ok(rows)
    ensures tol < h
    ensures Completed(f, tol, 0, rows)
    ensures rows[0] == Row(0, x0, f(x0), Abs(h), PhaseOf(h))
    ensures 2 <= |rows| <= fuel + 1
    ensures |Convergence(rows)| == |Tolerance(rows)| == |rows|
    ensures Tolerance(rows)[0] == Abs(h) && Tolerance(rows)[|rows| - 1] <= tol
    ensures forall i :: 0 <= i < |rows| ==> Tolerance(rows)[i] == Abs(SignedStep(rows[i]))
    ensures Abs(SignedStep(rows[|rows| - 1])) <= tol
  {
    var s := State(x0, f(x0), h);
    LoopCompleted(f, tol, 0, s, fuel, rows);
    forall i | 0 <= i < |rows|
      ensures Tolerance(rows)[i] == Abs(SignedStep(rows[i]))
    {
      SignedMagnitude(rows[i]);
    }
  }

  /** The only argument check is h > tol; past it only the iteration bound
      can stop a run. */
  lemma SearchErrors(f: real -> real, x0: real, h: real, tol: real, fuel: nat)
    ensures h <= tol ==> Search(f, x0, h, tol, fuel) == Err(InvalidParameter)
    ensures tol < h && Search(f, x0, h, tol, fuel).Err? ==> Search(f, x0, h, tol, fuel) == Err(OutOfFuel)
  {
    if tol < h {
      LoopOnlyRunsOutOfFuel(f, tol, 0, State(x0, f(x0), h), fuel);
    }
  }

  lemma {:induction false} LoopOnlyRunsOutOfFuel(f: real -> real, tol: real, iter: nat, s: State, fuel: nat)
    ensures Loop(f, tol, iter, s, fuel).Err? ==> Loop(f, tol, iter, s, fuel) == Err(OutOfFuel)
    decreases fuel
  {
    if fuel > 0 {
      LoopOnlyRunsOutOfFuel(f, tol, iter + 1, Trial(f, s), fuel - 1);
    }
  }

  /** The best value never gets worse along the table, and gets strictly
      better whenever the point moves. */
  lemma {:induction false} Descends(f: real -> real, tol: real, iter: nat, rows: seq<Row>, i: nat, j: nat)
    requires Completed(f, tol, iter, rows) && i <= j < |rows|
    ensures rows[j].fx <= rows[i].fx
    ensures rows[j].x != rows[i].x ==> rows[j].fx < rows[i].fx
    decreases j
  {
    if i < j {
      Descends(f, tol, iter, rows, i, j - 1);
      assert Passed(f, tol, rows, j - 1);
    }
  }

  /** The final point is the best one recorded: no row has a smaller value. */
  lemma SearchFindsBest(f: real -> real, x0: real, h: real, tol: real, fuel: nat, rows: seq<Row>)
    requires Search(f, x0, h, tol, fuel) == Ok(rows)
    ensures forall i :: 0 <= i < |rows| ==> rows[|rows| - 1].fx <= rows[i].fx
    ensures rows[|rows| - 1].fx == f(rows[|rows| - 1].x) <= f(x0)
  {
    SearchCompleted(f, x0, h, tol, fuel, rows);
    forall i | 0 <= i < |rows|
      ensures rows[|rows| - 1].fx <= rows[i].fx
    {
      Descends(f, tol, 0, rows, i, |rows| - 1);
    }
  }

  /** Nothing bounds the expansion: on an objective that keeps decreasing
      to the right every trial from a forward step succeeds, |h| grows by
      1.2 each time, and the loop never exits. */
  lemma {:induction false} LoopRunsAway(f: real -> real, tol: real, iter: nat, s: State, fuel: nat)
    requires forall x, y :: x < y ==> f(y) < f(x)
    requires s.fx == f(s.x) && 0.0 < s.h && tol < s.h
    ensures Loop(f, tol, iter, s, fuel) == Err(OutOfFuel)
    decreases fuel
  {
    assert s.x < s.x + s.h;
    if fuel > 0 {
      LoopRunsAway(f, tol, iter + 1, Trial(f, s), fuel - 1);
    }
  }

  lemma SearchRunsAway(f: real -> real, x0: real, h: real, tol: real, fuel: nat)
    requires forall x, y :: x < y ==> f(y) < f(x)
    requires 0.0 < h && tol < h
    ensures Search(f, x0, h, tol, fuel) == Err(OutOfFuel)
  {
    LoopRunsAway(f, tol, 0, State(x0, f(x0), h), fuel);
  }

  /** The `convergence` list: the point column. */
  function Convergence(rows: seq<Row>): (xs: seq<real>)
    ensures |xs| == |rows|
    ensures forall i :: 0 <= i < |rows| ==> xs[i] == rows[i].x
  {
    seq(|rows|, i requires 0 <= i < |rows| => rows[i].x)
  }

  /** The `tolerance` list: the |h| column. */
  function Tolerance(rows: seq<Row>): (ts: seq<real>)
    ensures |ts| == |rows|
    ensures forall i :: 0 <= i < |rows| ==> ts[i] == rows[i].absH
  {
    seq(|rows|, i requires 0 <= i < |rows| => rows[i].absH)
  }

  /** The defaults of `directional_search`: h = 0.01 and tol = 1e-4. */
  const DefaultStep: real := 0.01
  const DefaultTol: real := 0.0001

  /** The default step exceeds the default tolerance, so a default call
      passes the argument check and can fail only by running out of
      iterations. */
  lemma DefaultsAccepted(f: real -> real, x0: real, fuel: nat)
    ensures Search(f, x0, DefaultStep, DefaultTol, fuel) != Err(InvalidParameter)
    ensures Search(f, x0, DefaultStep, DefaultTol, fuel).Err? ==> Search(f, x0, DefaultStep, DefaultTol, fuel) == Err(OutOfFuel)
  {
    SearchErrors(f, x0, DefaultStep, DefaultTol, fuel);
  }
}
