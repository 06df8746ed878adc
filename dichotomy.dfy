/** Dichotomy (bisection) search, `dichotomy_search`: the bracket [a, b] is
    narrowed by comparing f at two probes delta apart around the midpoint. */
module Dichotomy {
  import opened Common

  /** The probe points c and d: delta apart, centred on the midpoint of [a, b]. */
  function Probes(a: real, b: real, delta: real): (p: (real, real))
    ensures p.1 - p.0 == delta
    ensures p.0 + p.1 == a + b
  {
    (((a + b) - delta) / 2.0, ((a + b) + delta) / 2.0)
  }

  /** The table row of one pass over the bracket [a, b]. */
  function Row(f: real -> real, iter: nat, a: real, b: real, delta: real): BracketRow
  {
    var (c, d) := Probes(a, b, delta);
    RowOf(f, iter, a, b, c, d)
  }

  /** One narrowing step: keep [a, d] when f(c) <= f(d) (ties go left),
      otherwise [c, b]. The bracket stays ordered and its width w becomes
      (w + delta) / 2. */
  function Narrow(f: real -> real, a: real, b: real, delta: real): (r: (real, real))
    requires a < b && 0.0 < delta
    ensures r.0 < r.1
    ensures r.1 - r.0 == ((b - a) + delta) / 2.0
    ensures r.0 == a || r.1 == b
    ensures var (c, d) := Probes(a, b, delta); f(c) == f(d) ==> r.0 == a
  {
    var (c, d) := Probes(a, b, delta);
    if f(c) <= f(d) then (a, d) else (c, b)
  }

  /** The rows recorded from the pass numbered `iter` over [a, b] on: each
      pass records its row before the stop test |b - a| <= 2 tol, and only
      then evaluates the probes. `fuel` bounds the number of narrowing steps. */
  function Loop(f: real -> real, delta: real, tol: real, iter: nat, a: real, b: real, fuel: nat): Result<seq<BracketRow>>
    requires a < b && 0.0 < delta
    decreases fuel
  {
    var row := Row(f, iter, a, b, delta);
    if Abs(b - a) <= 2.0 * tol then Ok([row])
    else if fuel == 0 then Err(OutOfFuel)
    else
      var (a', b') := Narrow(f, a, b, delta);
      Prepend([row], Loop(f, delta, tol, iter + 1, a', b', fuel - 1))
  }

  /** The whole search: argument checks, bracket swap, then the loop from
      pass 1. */
  function Search(f: real -> real, a: real, b: real, delta: real, tol: real, fuel: nat): Result<seq<BracketRow>>
  {
    if delta <= 0.0 then Err(InvalidParameter)
    else
      match OrderBracket(a, b)
      case Err(e) => Err(e)
      case Ok((lo, hi)) => Loop(f, delta, tol, 1, lo, hi, fuel)
  }

  /** What a run hands back: the table, the number of counted evaluations,
      and the estimate x_min. */
  datatype Run = Run(table: seq<BracketRow>, calls: nat, xMin: real)

  method DichotomySearch(f: real -> real, a: real, b: real, delta: real, tol: real, fuel: nat)
    returns (r: Result<Run>)
    ensures r.Err? ==> Search(f, a, b, delta, tol, fuel) == Err(r.error)
    ensures r.Ok? ==> Search(f, a, b, delta, tol, fuel) == Ok(r.value.table)
    ensures r.Ok? ==> r.value.calls == 2 * (|r.value.table| - 1)
    ensures r.Ok? ==> r.value.xMin == r.value.table[|r.value.table| - 1].x
  {
    if delta <= 0.0 {
      return Err(InvalidParameter);
    }
    var lo, hi := a, b;
    if hi <= lo {
      if lo == hi {
        return Err(DegenerateBracket);
      }
      lo := lo + hi;
      hi := lo - hi;
      lo := lo - hi;
    }
    assert OrderBracket(a, b) == Ok((lo, hi));
    assert Search(f, a, b, delta, tol, fuel) == Loop(f, delta, tol, 1, lo, hi, fuel);
    var calls: nat := 0;
    var table: seq<BracketRow> := [];
    var iter: nat := 0;
    var left := fuel;
    PrependNothing(Loop(f, delta, tol, 1, lo, hi, fuel));
    while true
      invariant lo < hi
      invariant iter == |table| && calls == 2 * iter
      invariant Search(f, a, b, delta, tol, fuel) == Prepend(table, Loop(f, delta, tol, iter + 1, lo, hi, left))
      decreases left
    {
      iter := iter + 1;
      var c := ((lo + hi) - delta) / 2.0;
      var d := ((lo + hi) + delta) / 2.0;
      var row := BracketRow(iter, (lo + hi) / 2.0, f((lo + hi) / 2.0), Abs((hi - lo) / 2.0), lo, hi, c, d);
      assert row == Row(f, iter, lo, hi, delta);
      ghost var before := table;
      table := table + [row];
      if Abs(hi - lo) <= 2.0 * tol {
        break;
      }
      if left == 0 {
        return Err(OutOfFuel);
      }
      ghost var next := Narrow(f, lo, hi, delta);
      assert Loop(f, delta, tol, iter, lo, hi, left) == Prepend([row], Loop(f, delta, tol, iter + 1, next.0, next.1, left - 1));
      PrependTwice(before, [row], Loop(f, delta, tol, iter + 1, next.0, next.1, left - 1));
      var fc, fd;
      fc, calls := CountedCall(f, c, calls);
      fd, calls := CountedCall(f, d, calls);
      if fc <= fd {
        hi := d;
      } else {
        lo := c;
      }
      left := left - 1;
      assert (lo, hi) == next;
    }
    return Ok(Run(table, calls, (lo + hi) / 2.0));
  }

  /** What a recorded row says about the bracket it was recorded for: the
      bracket is ordered, the estimate is its midpoint with f's value there,
      the tolerance column is the half-width, and the probes are delta apart
      around the midpoint. */
  predicate Records(f: real -> real, delta: real, row: BracketRow)
  {
    row.a < row.b
    && row.x == (row.a + row.b) / 2.0 && row.fx == f(row.x)
    && row.halfWidth == (row.b - row.a) / 2.0
    && row.d - row.c == delta && row.c + row.d == row.a + row.b
  }

  /** The shape of a completed table whose first pass, numbered `iter`, is
      over [a, b]: one row per pass, each pass narrows the previous row's
      bracket, every row but the last failed the stop test and the last one
      passed it. */
  predicate Completed(f: real -> real, delta: real, tol: real, iter: nat, a: real, b: real, rows: seq<BracketRow>)
  {
    1 <= |rows| && rows[0].a == a && rows[0].b == b
    && (forall i :: 0 <= i < |rows| ==> Records(f, delta, rows[i]) && rows[i].iter == iter + i)
    && (forall i :: 0 <= i < |rows| - 1 ==> tol < rows[i].halfWidth && Narrowed(f, rows[i], rows[i + 1]))
    && rows[|rows| - 1].halfWidth <= tol
  }

  lemma {:induction false} LoopCompleted(f: real -> real, delta: real, tol: real, iter: nat, a: real, b: real, fuel: nat, rows: seq<BracketRow>)
    requires a < b && 0.0 < delta
    requires Loop(f, delta, tol, iter, a, b, fuel) == Ok(rows)
    ensures Completed(f, delta, tol, iter, a, b, rows)
    ensures |rows| <= fuel + 1
    decreases fuel
  {
    var row := Row(f, iter, a, b, delta);
    if Abs(b - a) <= 2.0 * tol {
      assert rows == [row];
    } else {
      var next := Narrow(f, a, b, delta);
      var tail := Loop(f, delta, tol, iter + 1, next.0, next.1, fuel - 1);
      var rest := tail.value;
      assert rows == [row] + rest;
      LoopCompleted(f, delta, tol, iter + 1, next.0, next.1, fuel - 1, rest);
      forall i | 0 <= i < |rows|
        ensures Records(f, delta, rows[i]) && rows[i].iter == iter + i
      {
        if i > 0 {
          assert rows[i] == rest[i - 1];
        }
      }
      forall i | 0 <= i < |rows| - 1
        ensures tol < rows[i].halfWidth && Narrowed(f, rows[i], rows[i + 1])
      {
        if i > 0 {
          assert rows[i] == rest[i - 1] && rows[i + 1] == rest[i];
        }
      }
    }
  }

  /** A finished dichotomy run: delta was positive, the bracket non-empty,
      the table starts from the ordered bracket and has the shape above, and
      it never has more rows than narrowing steps allowed plus one. */
  lemma SearchCompleted(f: real -> real, a: real, b: real, delta: real, tol: real, fuel: nat, rows: seq<BracketRow>)
    requires Search(f, a, b, delta, tol, fuel) == Ok(rows)
    ensures 0.0 < delta && a != b
    ensures Completed(f, delta, tol, 1, if a < b then a else b, if a < b then b else a, rows)
    ensures |rows| <= fuel + 1
    ensures |Convergence(rows)| == |Tolerance(rows)| == |rows|
    ensures Tolerance(rows)[|rows| - 1] <= tol
  {
    var (lo, hi) := OrderBracket(a, b).value;
    LoopCompleted(f, delta, tol, 1, lo, hi, fuel, rows);
  }

  /** The argument checks: delta must be positive, then the bracket must be
      non-empty; past them only the iteration bound can stop a run. */
  lemma SearchErrors(f: real -> real, a: real, b: real, delta: real, tol: real, fuel: nat)
    ensures delta <= 0.0 ==> Search(f, a, b, delta, tol, fuel) == Err(InvalidParameter)
    ensures 0.0 < delta && a == b ==> Search(f, a, b, delta, tol, fuel) == Err(DegenerateBracket)
    ensures 0.0 < delta && a != b && Search(f, a, b, delta, tol, fuel).Err? ==>
              Search(f, a, b, delta, tol, fuel) == Err(OutOfFuel)
  {
    if 0.0 < delta && a != b {
      var (lo, hi) := OrderBracket(a, b).value;
      LoopOnlyRunsOutOfFuel(f, delta, tol, 1, lo, hi, fuel);
    }
  }

  lemma {:induction false} LoopOnlyRunsOutOfFuel(f: real -> real, delta: real, tol: real, iter: nat, a: real, b: real, fuel: nat)
    requires a < b && 0.0 < delta
    ensures Loop(f, delta, tol, iter, a, b, fuel).Err? ==> Loop(f, delta, tol, iter, a, b, fuel) == Err(OutOfFuel)
    decreases fuel
  {
    if fuel > 0 {
      var next := Narrow(f, a, b, delta);
      LoopOnlyRunsOutOfFuel(f, delta, tol, iter + 1, next.0, next.1, fuel - 1);
    }
  }

  /** A reversed bracket is swapped: calling with (b, a) gives the same run
      as calling with (a, b). */
  lemma SearchSwapped(f: real -> real, a: real, b: real, delta: real, tol: real, fuel: nat)
    ensures Search(f, b, a, delta, tol, fuel) == Search(f, a, b, delta, tol, fuel)
  {
  }

  /** The width law: after i narrowing steps the excess of the width over
      delta has been halved i times. */
  lemma WidthAt(f: real -> real, delta: real, tol: real, iter: nat, a: real, b: real, rows: seq<BracketRow>, i: nat)
    requires Completed(f, delta, tol, iter, a, b, rows) && i < |rows|
    ensures (rows[i].b - rows[i].a - delta) * Pow(2.0, i) == b - a - delta
  {
    CompletedHalving(f, delta, tol, iter, a, b, rows);
    ExcessAt(delta, rows, i, b - a);
  }

  /** Each step halves the excess of the width over delta. */
  predicate Halving(delta: real, rows: seq<BracketRow>)
  {
    forall j :: 0 <= j < |rows| - 1 ==>
      rows[j + 1].b - rows[j + 1].a - delta == (rows[j].b - rows[j].a - delta) / 2.0
  }

  lemma CompletedHalving(f: real -> real, delta: real, tol: real, iter: nat, a: real, b: real, rows: seq<BracketRow>)
    requires Completed(f, delta, tol, iter, a, b, rows)
    ensures Halving(delta, rows)
  {
    forall j | 0 <= j < |rows| - 1
      ensures rows[j + 1].b - rows[j + 1].a - delta == (rows[j].b - rows[j].a - delta) / 2.0
    {
      assert Records(f, delta, rows[j]) && Narrowed(f, rows[j], rows[j + 1]);
    }
  }

  lemma {:induction false} ExcessAt(delta: real, rows: seq<BracketRow>, i: nat, w: real)
    requires Halving(delta, rows) && i < |rows| && rows[0].b - rows[0].a == w
    ensures (rows[i].b - rows[i].a - delta) * Pow(2.0, i) == w - delta
  {
    if i > 0 {
      ExcessAt(delta, rows, i - 1, w);
      var p, n := rows[i - 1], rows[i];
      var q := Pow(2.0, i - 1);
      assert n.b - n.a - delta == (p.b - p.a - delta) / 2.0;
      assert Pow(2.0, i) == 2.0 * q;
      calc {
        (n.b - n.a - delta) * Pow(2.0, i);
        ((p.b - p.a - delta) / 2.0) * (2.0 * q);
        (p.b - p.a - delta) * q;
      }
    }
  }

  /** While the bracket is at least delta wide it never widens: every
      width stays at least delta and each step's width is at most the one
      before. (A bracket narrower than delta widens towards delta.) */
  lemma WidthNonIncreasing(f: real -> real, delta: real, tol: real, iter: nat, a: real, b: real, rows: seq<BracketRow>)
    requires Completed(f, delta, tol, iter, a, b, rows) && delta <= b - a
    ensures forall i :: 0 <= i < |rows| ==> delta <= rows[i].b - rows[i].a
    ensures forall i :: 0 <= i < |rows| - 1 ==> rows[i + 1].b - rows[i + 1].a <= rows[i].b - rows[i].a
  {
    forall i | 0 <= i < |rows|
      ensures delta <= rows[i].b - rows[i].a
    {
      AtLeastDelta(f, delta, tol, iter, a, b, rows, i);
    }
    forall i | 0 <= i < |rows| - 1
      ensures rows[i + 1].b - rows[i + 1].a <= rows[i].b - rows[i].a
    {
      assert Records(f, delta, rows[i]) && Narrowed(f, rows[i], rows[i + 1]);
    }
  }

  lemma {:induction false} AtLeastDelta(f: real -> real, delta: real, tol: real, iter: nat, a: real, b: real, rows: seq<BracketRow>, i: nat)
    requires Completed(f, delta, tol, iter, a, b, rows) && delta <= b - a && i < |rows|
    ensures delta <= rows[i].b - rows[i].a
  {
    if i > 0 {
      AtLeastDelta(f, delta, tol, iter, a, b, rows, i - 1);
      assert Records(f, delta, rows[i - 1]) && Narrowed(f, rows[i - 1], rows[i]);
    }
  }

  /** Nothing checks that delta < 2 tol: when delta >= 2 tol and the bracket
      is wider than 2 tol, the width (w + delta) / 2 never drops to 2 tol and
      the loop never exits, whatever the iteration bound. */
  lemma {:induction false} LoopStalls(f: real -> real, delta: real, tol: real, iter: nat, a: real, b: real, fuel: nat)
    requires a < b && 0.0 < delta
    requires 2.0 * tol <= delta && 2.0 * tol < b - a
    ensures Loop(f, delta, tol, iter, a, b, fuel) == Err(OutOfFuel)
    decreases fuel
  {
    if fuel > 0 {
      var next := Narrow(f, a, b, delta);
      LoopStalls(f, delta, tol, iter + 1, next.0, next.1, fuel - 1);
    }
  }

  lemma SearchStalls(f: real -> real, a: real, b: real, delta: real, tol: real, fuel: nat)
    requires 0.0 < delta && a != b && 2.0 * tol <= delta && 2.0 * tol < Abs(b - a)
    ensures Search(f, a, b, delta, tol, fuel) == Err(OutOfFuel)
  {
    var (lo, hi) := OrderBracket(a, b).value;
    LoopStalls(f, delta, tol, 1, lo, hi, fuel);
  }

  /** With delta < 2 tol the excess width over delta halves each step, so k
      steps suffice once (w - delta) <= (2 tol - delta) 2^k. */
  lemma {:induction false} LoopStops(f: real -> real, delta: real, tol: real, iter: nat, a: real, b: real, fuel: nat, k: nat)
    requires a < b && 0.0 < delta < 2.0 * tol
    requires b - a - delta <= (2.0 * tol - delta) * Pow(2.0, k) && k <= fuel
    ensures Loop(f, delta, tol, iter, a, b, fuel).Ok?
    decreases k
  {
    if 2.0 * tol < b - a {
      var next := Narrow(f, a, b, delta);
      CloserToStop(f, delta, tol, a, b, k);
      LoopStops(f, delta, tol, iter + 1, next.0, next.1, fuel - 1, k - 1);
      assert Loop(f, delta, tol, iter, a, b, fuel) == Prepend([Row(f, iter, a, b, delta)], Loop(f, delta, tol, iter + 1, next.0, next.1, fuel - 1));
    } else {
      assert Abs(b - a) <= 2.0 * tol;
    }
  }

  /** A pass that fails the stop test halves the excess width, one power of
      two closer to the stop. */
  lemma CloserToStop(f: real -> real, delta: real, tol: real, a: real, b: real, k: nat)
    requires a < b && 0.0 < delta < 2.0 * tol < b - a
    requires b - a - delta <= (2.0 * tol - delta) * Pow(2.0, k)
    ensures 0 < k
    ensures Narrow(f, a, b, delta).1 - Narrow(f, a, b, delta).0 - delta <= (2.0 * tol - delta) * Pow(2.0, k - 1)
  {
    var next := Narrow(f, a, b, delta);
    var q := Pow(2.0, k - 1);
    assert Pow(2.0, k) == 2.0 * q;
    assert next.1 - next.0 - delta == (b - a - delta) / 2.0;
    assert (2.0 * tol - delta) * (2.0 * q) == 2.0 * ((2.0 * tol - delta) * q);
  }

  /** With delta < 2 tol every run finishes within
      ceil(log2((w - delta) / (2 tol - delta))) narrowing steps, w the
      initial width. */
  lemma SearchStops(f: real -> real, a: real, b: real, delta: real, tol: real, fuel: nat)
    requires 0.0 < delta < 2.0 * tol && a != b
    requires CeilLog2((Abs(b - a) - delta) / (2.0 * tol - delta)) <= fuel
    ensures Search(f, a, b, delta, tol, fuel).Ok?
  {
    var (lo, hi) := OrderBracket(a, b).value;
    var g := 2.0 * tol - delta;
    var k := CeilLog2((hi - lo - delta) / g);
    assert Abs(b - a) == hi - lo;
    BelowScaled(hi - lo - delta, g, Pow(2.0, k));
    LoopStops(f, delta, tol, 1, lo, hi, fuel, k);
  }

  lemma BelowScaled(x: real, g: real, p: real)
    requires 0.0 < g && x / g <= p
    ensures x <= g * p
  {
    assert x == (x / g) * g;
    assert (x / g) * g <= p * g;
  }

  /** The defaults of `dichotomy_search`: delta = 1e-5 and tol = 1e-4. */
  const DefaultDelta: real := 0.00001
  const DefaultTol: real := 0.0001

  /** The defaults satisfy delta < 2 tol, so the stall of `SearchStalls`
      cannot happen on a default call: every proper bracket is narrowed to
      the tolerance within the log2 bound. */
  lemma DefaultsStop(f: real -> real, a: real, b: real, fuel: nat)
    requires a != b
    requires CeilLog2((Abs(b - a) - DefaultDelta) / (2.0 * DefaultTol - DefaultDelta)) <= fuel
    ensures Search(f, a, b, DefaultDelta, DefaultTol, fuel).Ok?
  {
    SearchStops(f, a, b, DefaultDelta, DefaultTol, fuel);
  }
}
