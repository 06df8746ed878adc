/** Golden-section search, `golden_ratio_search`. The source's constants
    (3 - sqrt 5)/2 and (sqrt 5 - 1)/2 are the parameters r1 and r2, pinned
    down by the algebra that makes the method work: r1 + r2 == 1 and
    r2 * r2 == r1 (so r2 is the positive root of r^2 + r - 1). */
module GoldenSection {
  import opened Common

  predicate GoldenRatios(r1: real, r2: real)
  {
    0.0 < r2 && r1 + r2 == 1.0 && r2 * r2 == r1
  }

  lemma RatiosOrdered(r1: real, r2: real)
    requires GoldenRatios(r1, r2)
    ensures 0.0 < r1 < r2 < 1.0
  {
    assert r2 < 1.0;
    assert r2 * r2 < r2 * 1.0;
  }

  /** The loop state: the bracket [a, b], the interior points c and d, and
      the two cached values f_c and f_d. */
  datatype Section = Section(a: real, b: real, c: real, d: real, fc: real, fd: real)

  /** c and d sit at the fractions r1 and r2 of the bracket. */
  predicate Interior(r1: real, r2: real, s: Section)
  {
    s.a < s.b && s.c == r1 * (s.b - s.a) + s.a && s.d == r2 * (s.b - s.a) + s.a
  }

  /** The cached values are f at the interior points. */
  predicate Cached(f: real -> real, s: Section)
  {
    s.fc == f(s.c) && s.fd == f(s.d)
  }

  /** The state before the loop: both interior points placed and evaluated
      (the two initial counted evaluations). */
  function Start(f: real -> real, r1: real, r2: real, a: real, b: real): Section
  {
    var c := r1 * (b - a) + a;
    var d := r2 * (b - a) + a;
    Section(a, b, c, d, f(c), f(d))
  }

  /** One narrowing step on the cached values. Left: b := d, d := c, a new c,
      f_d := f_c and f_c evaluated anew. Right: a := c, c := d, a new d,
      f_c := f_d and f_d evaluated anew. Either way one new evaluation. */
  function Shrink(f: real -> real, r1: real, r2: real, s: Section): Section
  {
    if s.fc <= s.fd then
      var c := r1 * (s.d - s.a) + s.a;
      Section(s.a, s.d, c, s.c, f(c), s.fc)
    else
      var d := r2 * (s.b - s.c) + s.c;
      Section(s.c, s.b, s.d, d, s.fd, f(d))
  }

  function Row(f: real -> real, iter: nat, s: Section): BracketRow
  {
    RowOf(f, iter, s.a, s.b, s.c, s.d)
  }

  /** The rows recorded from the pass numbered `iter` on: the row first, then
      the stop test |b - a| <= 2 tol, then a narrowing step. `fuel` bounds
      the number of narrowing steps. */
  function Loop(f: real -> real, r1: real, r2: real, tol: real, iter: nat, s: Section, fuel: nat): Result<seq<BracketRow>>
    decreases fuel
  {
    var row := Row(f, iter, s);
    if Abs(s.b - s.a) <= 2.0 * tol then Ok([row])
    else if fuel == 0 then Err(OutOfFuel)
    else Prepend([row], Loop(f, r1, r2, tol, iter + 1, Shrink(f, r1, r2, s), fuel - 1))
  }

  /** The whole search: bracket check and swap, the two initial evaluations,
      then the loop from pass 1. */
  function Search(f: real -> real, r1: real, r2: real, a: real, b: real, tol: real, fuel: nat): Result<seq<BracketRow>>
  {
    match OrderBracket(a, b)
    case Err(e) => Err(e)
    case Ok((lo, hi)) => Loop(f, r1, r2, tol, 1, Start(f, r1, r2, lo, hi), fuel)
  }

  datatype Run = Run(table: seq<BracketRow>, calls: nat, xMin: real)

  method GoldenRatioSearch(f: real -> real, r1: real, r2: real, a: real, b: real, tol: real, fuel: nat)
    returns (r: Result<Run>)
    ensures r.Err? ==> Search(f, r1, r2, a, b, tol, fuel) == Err(r.error)
    ensures r.Ok? ==> Search(f, r1, r2, a, b, tol, fuel) == Ok(r.value.table)
    ensures r.Ok? ==> r.value.calls == |r.value.table| + 1
    ensures r.Ok? ==> r.value.xMin == r.value.table[|r.value.table| - 1].x
  {
    var lo, hi := a, b;
    if hi <= lo {
      if lo == hi {
        return Err(DegenerateBracket);
      }
      lo := lo + hi;
      hi := lo - hi;
      lo := lo - hi;
    }
    assert OrderBracket(a, b) == Ok((lo, hi));
    var calls: nat := 0;
    var table: seq<BracketRow> := [];
    var iter: nat := 0;
    var c := r1 * (hi - lo) + lo;
    var d := r2 * (hi - lo) + lo;
    ghost var start := Start(f, r1, r2, lo, hi);
    assert start.a == lo && start.b == hi && start.c == c && start.d == d;
    var fc, fd;
    fc, calls := CountedCall(f, c, calls);
    fd, calls := CountedCall(f, d, calls);
    assert start == Section(lo, hi, c, d, fc, fd);
    assert Search(f, r1, r2, a, b, tol, fuel) == Loop(f, r1, r2, tol, 1, Section(lo, hi, c, d, fc, fd), fuel);
    var left := fuel;
    PrependNothing(Loop(f, r1, r2, tol, 1, Section(lo, hi, c, d, fc, fd), fuel));
    while true
      invariant iter == |table| && calls == iter + 2
      invariant Search(f, r1, r2, a, b, tol, fuel) ==
                Prepend(table, Loop(f, r1, r2, tol, iter + 1, Section(lo, hi, c, d, fc, fd), left))
      decreases left
    {
      iter := iter + 1;
      ghost var s := Section(lo, hi, c, d, fc, fd);
      var row := BracketRow(iter, (lo + hi) / 2.0, f((lo + hi) / 2.0), Abs((hi - lo) / 2.0), lo, hi, c, d);
      assert row == Row(f, iter, s);
      ghost var before := table;
      table := table + [row];
      if Abs(hi - lo) <= 2.0 * tol {
        break;
      }
      if left == 0 {
        return Err(OutOfFuel);
      }
      ghost var next := Shrink(f, r1, r2, s);
      assert Loop(f, r1, r2, tol, iter, s, left) == Prepend([row], Loop(f, r1, r2, tol, iter + 1, next, left - 1));
      PrependTwice(before, [row], Loop(f, r1, r2, tol, iter + 1, next, left - 1));
      lo, hi, c, d, fc, fd, calls := Step(f, r1, r2, lo, hi, c, d, fc, fd, calls);
      left := left - 1;
    }
    return Ok(Run(table, calls, (lo + hi) / 2.0));
  }

  /** The body of one narrowing step, updating the state variables in the
      source's order; it makes one counted evaluation. */
  method Step(f: real -> real, r1: real, r2: real, a: real, b: real, c: real, d: real, fc: real, fd: real, calls: nat)
    returns (a': real, b': real, c': real, d': real, fc': real, fd': real, calls': nat)
    ensures Section(a', b', c', d', fc', fd') == Shrink(f, r1, r2, Section(a, b, c, d, fc, fd))
    ensures calls' == calls + 1
  {
    a', b', c', d', fc', fd' := a, b, c, d, fc, fd;
    ghost var next := Shrink(f, r1, r2, Section(a, b, c, d, fc, fd));
    if fc' <= fd' {
      b' := d';
      d' := c';
      c' := r1 * (b' - a') + a';
      fd' := fc';
      assert next.a == a' && next.b == b' && next.c == c' && next.d == d' && next.fd == fd';
      fc', calls' := CountedCall(f, c', calls);
    } else {
      a' := c';
      c' := d';
      d' := r2 * (b' - a') + a';
      fc' := fd';
      assert next.a == a' && next.b == b' && next.c == c' && next.d == d' && next.fc == fc';
      fd', calls' := CountedCall(f, d', calls);
    }
  }

  /** The interior points are strictly inside the bracket and in order. */
  lemma InteriorOrdered(r1: real, r2: real, s: Section)
    requires GoldenRatios(r1, r2) && Interior(r1, r2, s)
    ensures s.a < s.c < s.d < s.b
  {
    RatiosOrdered(r1, r2);
    var w := s.b - s.a;
    assert r1 * w < r2 * w < 1.0 * w;
  }

  /** Before the loop the interior points are placed and both cached values
      are right. */
  lemma StartPlaced(f: real -> real, r1: real, r2: real, a: real, b: real)
    requires a < b
    ensures Interior(r1, r2, Start(f, r1, r2, a, b)) && Cached(f, Start(f, r1, r2, a, b))
  {
  }

  /** One step keeps c and d at the fractions r1 and r2 of the new bracket,
      shrinks the width by the factor r2, and keeps the cache right: the
      point carried over keeps its value and only the new point is
      evaluated. */
  lemma {:induction false} ShrinkKeeps(f: real -> real, r1: real, r2: real, s: Section)
    requires GoldenRatios(r1, r2) && Interior(r1, r2, s)
    ensures Interior(r1, r2, Shrink(f, r1, r2, s))
    ensures Shrink(f, r1, r2, s).b - Shrink(f, r1, r2, s).a == r2 * (s.b - s.a)
    ensures Cached(f, s) ==> Cached(f, Shrink(f, r1, r2, s))
  {
    RatiosOrdered(r1, r2);
    var t := Shrink(f, r1, r2, s);
    var w := s.b - s.a;
    if s.fc <= s.fd {
      assert t.b - t.a == r2 * w;
      calc {
        r2 * (t.b - t.a) + t.a;
        r2 * (r2 * w) + s.a;
        { assert r2 * (r2 * w) == (r2 * r2) * w; }
        r1 * w + s.a;
      }
    } else {
      assert t.b - t.a == w - r1 * w;
      assert w - r1 * w == (1.0 - r1) * w == r2 * w;
      calc {
        r1 * (t.b - t.a) + t.a;
        r1 * (r2 * w) + (r1 * w + s.a);
        { assert r1 * (r2 * w) + r1 * w == (r1 * r2 + r1) * w; }
        (r1 * r2 + r1) * w + s.a;
        { assert r1 * r2 + r1 == r2 * (r2 * r2 + r2); }
        r2 * w + s.a;
      }
    }
  }

  /** What a recorded golden-section row says: the estimate is the midpoint
      with f's value there, the tolerance column the half-width, and
      a < c < d < b with c and d at the fractions r1 and r2. */
  predicate Records(f: real -> real, r1: real, r2: real, row: BracketRow)
  {
    row.a < row.c < row.d < row.b
    && row.c == r1 * (row.b - row.a) + row.a && row.d == r2 * (row.b - row.a) + row.a
    && row.x == (row.a + row.b) / 2.0 && row.fx == f(row.x)
    && row.halfWidth == (row.b - row.a) / 2.0
  }

  /** The point kept from one step to the next: after a step to the left
      the old c becomes the new d, after a step to the right the old d
      becomes the new c. */
  predicate Reuses(f: real -> real, prev: BracketRow, next: BracketRow)
  {
    if f(prev.c) <= f(prev.d) then next.d == prev.c else next.c == prev.d
  }

  /** Pass i failed the stop test and was narrowed to the bracket of pass
      i + 1, keeping one of its interior points. */
  predicate Passed(f: real -> real, tol: real, rows: seq<BracketRow>, i: nat)
    requires i < |rows| - 1
  {
    tol < rows[i].halfWidth && Narrowed(f, rows[i], rows[i + 1]) && Reuses(f, rows[i], rows[i + 1])
  }

  /** The shape of a completed table whose first pass, numbered `iter`, is
      over [a, b]. The decisions recorded are those of the true values of f
      at the probes, although the loop only compares cached values. */
  predicate Completed(f: real -> real, r1: real, r2: real, tol: real, iter: nat, a: real, b: real, rows: seq<BracketRow>)
  {
    1 <= |rows| && rows[0].a == a && rows[0].b == b
    && (forall i :: 0 <= i < |rows| ==> Records(f, r1, r2, rows[i]) && rows[i].iter == iter + i)
    && (forall i :: 0 <= i < |rows| - 1 ==> Passed(f, tol, rows, i))
    && rows[|rows| - 1].halfWidth <= tol
  }

  lemma RowRecords(f: real -> real, r1: real, r2: real, iter: nat, s: Section)
    requires GoldenRatios(r1, r2) && Interior(r1, r2, s)
    ensures Records(f, r1, r2, Row(f, iter, s))
  {
    InteriorOrdered(r1, r2, s);
  }

  lemma StepRecorded(f: real -> real, r1: real, r2: real, iter: nat, s: Section)
    requires Cached(f, s)
    ensures Narrowed(f, Row(f, iter, s), Row(f, iter + 1, Shrink(f, r1, r2, s)))
    ensures Reuses(f, Row(f, iter, s), Row(f, iter + 1, Shrink(f, r1, r2, s)))
  {
  }

  lemma {:induction false} LoopCompleted(f: real -> real, r1: real, r2: real, tol: real, iter: nat, s: Section, fuel: nat, rows: seq<BracketRow>)
    requires GoldenRatios(r1, r2) && Interior(r1, r2, s) && Cached(f, s)
    requires Loop(f, r1, r2, tol, iter, s, fuel) == Ok(rows)
    ensures Completed(f, r1, r2, tol, iter, s.a, s.b, rows)
    ensures rows[0] == Row(f, iter, s)
    ensures |rows| <= fuel + 1
    decreases fuel
  {
    var row := Row(f, iter, s);
    RowRecords(f, r1, r2, iter, s);
    if Abs(s.b - s.a) <= 2.0 * tol {
      assert rows == [row];
    } else {
      var next := Shrink(f, r1, r2, s);
      ShrinkKeeps(f, r1, r2, s);
      var rest := Loop(f, r1, r2, tol, iter + 1, next, fuel - 1).value;
      assert rows == [row] + rest;
      LoopCompleted(f, r1, r2, tol, iter + 1, next, fuel - 1, rest);
      StepRecorded(f, r1, r2, iter, s);
      forall i | 0 <= i < |rows|
        ensures Records(f, r1, r2, rows[i]) && rows[i].iter == iter + i
      {
        if i > 0 {
          assert rows[i] == rest[i - 1];
        }
      }
      forall i | 0 <= i < |rows| - 1
        ensures Passed(f, tol, rows, i)
      {
        if i > 0 {
          assert rows[i] == rest[i - 1] && rows[i + 1] == rest[i];
          assert Passed(f, tol, rest, i - 1);
        }
      }
    }
  }

  /** A finished golden-section run: the bracket was non-empty, the table
      starts from the ordered bracket and has the shape above. */
  lemma SearchCompleted(f: real -> real, r1: real, r2: real, a: real, b: real, tol: real, fuel: nat, rows: seq<BracketRow>)
    requires GoldenRatios(r1, r2)
    requires Search(f, r1, r2, a, b, tol, fuel) == Ok(rows)
    ensures a != b
    ensures Completed(f, r1, r2, tol, 1, if a < b then a else b, if a < b then b else a, rows)
    ensures |rows| <= fuel + 1
    ensures |Convergence(rows)| == |Tolerance(rows)| == |rows|
    ensures Tolerance(rows)[|rows| - 1] <= tol
  {
    var (lo, hi) := OrderBracket(a, b).value;
    StartPlaced(f, r1, r2, lo, hi);
    LoopCompleted(f, r1, r2, tol, 1, Start(f, r1, r2, lo, hi), fuel, rows);
  }

  /** The only argument check is the empty bracket; past it only the
      iteration bound can stop a run. */
  lemma SearchErrors(f: real -> real, r1: real, r2: real, a: real, b: real, tol: real, fuel: nat)
    ensures a == b ==> Search(f, r1, r2, a, b, tol, fuel) == Err(DegenerateBracket)
    ensures a != b && Search(f, r1, r2, a, b, tol, fuel).Err? ==> Search(f, r1, r2, a, b, tol, fuel) == Err(OutOfFuel)
  {
    if a != b {
      var (lo, hi) := OrderBracket(a, b).value;
      LoopOnlyRunsOutOfFuel(f, r1, r2, tol, 1, Start(f, r1, r2, lo, hi), fuel);
    }
  }

  lemma {:induction false} LoopOnlyRunsOutOfFuel(f: real -> real, r1: real, r2: real, tol: real, iter: nat, s: Section, fuel: nat)
    ensures Loop(f, r1, r2, tol, iter, s, fuel).Err? ==> Loop(f, r1, r2, tol, iter, s, fuel) == Err(OutOfFuel)
    decreases fuel
  {
    if fuel > 0 {
      LoopOnlyRunsOutOfFuel(f, r1, r2, tol, iter + 1, Shrink(f, r1, r2, s), fuel - 1);
    }
  }

  /** A reversed bracket is swapped: calling with (b, a) gives the same run. */
  lemma SearchSwapped(f: real -> real, r1: real, r2: real, a: real, b: real, tol: real, fuel: nat)
    ensures Search(f, r1, r2, b, a, tol, fuel) == Search(f, r1, r2, a, b, tol, fuel)
  {
  }

  lemma NarrowedWidth(f: real -> real, r1: real, r2: real, p: BracketRow, n: BracketRow)
    requires GoldenRatios(r1, r2) && Records(f, r1, r2, p) && Narrowed(f, p, n)
    ensures n.b - n.a == r2 * (p.b - p.a)
  {
    var w := p.b - p.a;
    if !(f(p.c) <= f(p.d)) {
      assert n.b - n.a == w - r1 * w;
      assert w - r1 * w == (1.0 - r1) * w;
    }
  }

  /** Each bracket is r2 times as wide as the one before. */
  ghost predicate Shrinking(r2: real, rows: seq<BracketRow>)
  {
    forall j, k :: 0 <= j < k < |rows| && k == j + 1 ==> rows[k].b - rows[k].a == r2 * (rows[j].b - rows[j].a)
  }

  lemma {:induction false} CompletedShrinking(f: real -> real, r1: real, r2: real, tol: real, iter: nat, a: real, b: real, rows: seq<BracketRow>)
    requires GoldenRatios(r1, r2) && Completed(f, r1, r2, tol, iter, a, b, rows)
    ensures Shrinking(r2, rows) && 0 < |rows| && rows[0].b - rows[0].a == b - a
  {
    forall j, k | 0 <= j < k < |rows| && k == j + 1
      ensures rows[k].b - rows[k].a == r2 * (rows[j].b - rows[j].a)
    {
      assert Passed(f, tol, rows, j);
      NarrowedWidth(f, r1, r2, rows[j], rows[j + 1]);
    }
  }

  lemma {:induction false} WidthAt(r2: real, rows: seq<BracketRow>, i: nat, w: real)
    requires Shrinking(r2, rows) && i < |rows| && rows[0].b - rows[0].a == w
    ensures rows[i].b - rows[i].a == Pow(r2, i) * w
  {
    if i > 0 {
      WidthAt(r2, rows, i - 1, w);
      MulAssoc(r2, Pow(r2, i - 1), w);
    }
  }

  /** After i steps the bracket is r2^i times as wide as the first one. */
  lemma WidthDecay(f: real -> real, r1: real, r2: real, tol: real, iter: nat, a: real, b: real, rows: seq<BracketRow>, i: nat)
    requires GoldenRatios(r1, r2) && Completed(f, r1, r2, tol, iter, a, b, rows) && i < |rows|
    ensures rows[i].b - rows[i].a == Pow(r2, i) * (b - a)
  {
    CompletedShrinking(f, r1, r2, tol, iter, a, b, rows);
    WidthAt(r2, rows, i, b - a);
  }

  lemma PowShift(q: real, k: nat, w: real)
    requires 0 < k
    ensures Pow(q, k) * w == Pow(q, k - 1) * (q * w)
  {
    MulAssoc(Pow(q, k - 1), q, w);
  }

  /** k steps are enough once r2^k times the width is at most 2 tol. */
  lemma {:induction false} LoopStops(f: real -> real, r1: real, r2: real, tol: real, iter: nat, s: Section, fuel: nat, k: nat)
    requires GoldenRatios(r1, r2) && Interior(r1, r2, s)
    requires Pow(r2, k) * (s.b - s.a) <= 2.0 * tol && k <= fuel
    ensures Loop(f, r1, r2, tol, iter, s, fuel).Ok?
    decreases k
  {
    if 2.0 * tol < s.b - s.a {
      CloserToStop(f, r1, r2, tol, s, k);
      LoopStops(f, r1, r2, tol, iter + 1, Shrink(f, r1, r2, s), fuel - 1, k - 1);
      assert Loop(f, r1, r2, tol, iter, s, fuel) == Prepend([Row(f, iter, s)], Loop(f, r1, r2, tol, iter + 1, Shrink(f, r1, r2, s), fuel - 1));
    } else {
      assert Abs(s.b - s.a) <= 2.0 * tol;
    }
  }

  /** A pass that fails the stop test leaves a bracket one factor r2 closer
      to it. */
  lemma CloserToStop(f: real -> real, r1: real, r2: real, tol: real, s: Section, k: nat)
    requires GoldenRatios(r1, r2) && Interior(r1, r2, s)
    requires Pow(r2, k) * (s.b - s.a) <= 2.0 * tol < s.b - s.a
    ensures 0 < k && Interior(r1, r2, Shrink(f, r1, r2, s))
    ensures Pow(r2, k - 1) * (Shrink(f, r1, r2, s).b - Shrink(f, r1, r2, s).a) <= 2.0 * tol
  {
    ShrinkKeeps(f, r1, r2, s);
    PowShift(r2, k, s.b - s.a);
  }

  lemma SearchStops(f: real -> real, r1: real, r2: real, a: real, b: real, tol: real, fuel: nat, k: nat)
    requires GoldenRatios(r1, r2) && a != b
    requires Pow(r2, k) * Abs(b - a) <= 2.0 * tol && k <= fuel
    ensures Search(f, r1, r2, a, b, tol, fuel).Ok?
  {
    var (lo, hi) := OrderBracket(a, b).value;
    LoopStops(f, r1, r2, tol, 1, Start(f, r1, r2, lo, hi), fuel, k);
  }

  /** Nothing checks tol > 0: with tol <= 0 the width, always positive, never
      passes the stop test and the loop never exits. */
  lemma {:induction false} LoopStalls(f: real -> real, r1: real, r2: real, tol: real, iter: nat, s: Section, fuel: nat)
    requires GoldenRatios(r1, r2) && Interior(r1, r2, s) && tol <= 0.0
    ensures Loop(f, r1, r2, tol, iter, s, fuel) == Err(OutOfFuel)
    decreases fuel
  {
    if fuel > 0 {
      ShrinkKeeps(f, r1, r2, s);
      LoopStalls(f, r1, r2, tol, iter + 1, Shrink(f, r1, r2, s), fuel - 1);
    }
  }

  lemma SearchStalls(f: real -> real, r1: real, r2: real, a: real, b: real, tol: real, fuel: nat)
    requires GoldenRatios(r1, r2) && a != b && tol <= 0.0
    ensures Search(f, r1, r2, a, b, tol, fuel) == Err(OutOfFuel)
  {
    var (lo, hi) := OrderBracket(a, b).value;
    LoopStalls(f, r1, r2, tol, 1, Start(f, r1, r2, lo, hi), fuel);
  }

  /** Why the ratios must satisfy r2 * r2 == r1 and not only r1 + r2 == 1:
      with r1 = 0.45, r2 = 0.55 and f(x) = (x - 0.4)^2 on [0, 1], a step to
      the left and then one to the right leave the new d below the new c. */
  lemma SumToOneIsNotEnough()
    ensures var f := (x: real) => (x - 0.4) * (x - 0.4);
            var s := Shrink(f, 0.45, 0.55, Shrink(f, 0.45, 0.55, Start(f, 0.45, 0.55, 0.0, 1.0)));
            0.45 + 0.55 == 1.0 && s.d < s.c
  {
  }

  /** Two steps shrink the bracket by r2^2 == r1 < 1/2, so r2^(2j) 2^j <= 1. */
  lemma {:induction false} EvenPowersHalve(r1: real, r2: real, j: nat)
    requires GoldenRatios(r1, r2)
    ensures 0.0 <= Pow(r2, 2 * j) && Pow(r2, 2 * j) * Pow(2.0, j) <= 1.0
  {
    if j > 0 {
      EvenPowersHalve(r1, r2, j - 1);
      RatiosOrdered(r1, r2);
      var p := Pow(r2, 2 * (j - 1));
      TwoSteps(r2, j);
      assert Pow(r2, 2 * j) == r1 * p;
      HalfBelowOne(r1, p, Pow(2.0, j - 1));
    }
  }

  lemma {:induction false} TwoSteps(q: real, j: nat)
    requires 0 < j
    ensures Pow(q, 2 * j) == (q * q) * Pow(q, 2 * (j - 1))
  {
    var m: nat := 2 * (j - 1);
    PowSucc(q, m);
    PowSucc(q, m + 1);
    assert m + 1 + 1 == 2 * j;
    assert Pow(q, 2 * j) == q * (q * Pow(q, m));
    MulAssoc(q, q, Pow(q, m));
  }

  lemma PowSucc(q: real, m: nat)
    ensures Pow(q, m + 1) == q * Pow(q, m)
  {
  }

  lemma HalfBelowOne(r: real, p: real, q: real)
    requires 0.0 < r < 0.5 && 0.0 <= p && p * q <= 1.0
    ensures 0.0 <= r * p && (r * p) * (2.0 * q) <= 1.0
  {
    MulAssoc(r, p, 2.0 * q);
    assert p * (2.0 * q) == 2.0 * (p * q);
    MulAssoc(r, 2.0, p * q);
    assert (2.0 * r) * (p * q) <= 2.0 * r;
  }

  /** Whenever tol > 0 the search ends, whatever f is: 2 ceil(log2(w / 2 tol))
      steps suffice for a bracket of width w. */
  lemma SearchTerminates(f: real -> real, r1: real, r2: real, a: real, b: real, tol: real)
    requires GoldenRatios(r1, r2) && a != b && 0.0 < tol
    ensures Search(f, r1, r2, a, b, tol, 2 * CeilLog2(Abs(b - a) / (2.0 * tol))).Ok?
  {
    var k := 2 * CeilLog2(Abs(b - a) / (2.0 * tol));
    EnoughSteps(r1, r2, Abs(b - a), tol);
    SearchStops(f, r1, r2, a, b, tol, k, k);
  }

  /** 2 ceil(log2(w / 2 tol)) factors r2 bring the width w down to 2 tol. */
  lemma EnoughSteps(r1: real, r2: real, w: real, tol: real)
    requires GoldenRatios(r1, r2) && 0.0 < tol
    ensures Pow(r2, 2 * CeilLog2(w / (2.0 * tol))) * w <= 2.0 * tol
  {
    var x := w / (2.0 * tol);
    var j := CeilLog2(x);
    assert w == x * (2.0 * tol);
    EvenPowersHalve(r1, r2, j);
    ScaledBelow(Pow(r2, 2 * j), x, Pow(2.0, j), 2.0 * tol, w);
  }

  lemma ScaledBelow(p: real, x: real, y: real, t: real, w: real)
    requires 0.0 <= p && x <= y && p * y <= 1.0 && 0.0 < t && w == x * t
    ensures p * w <= t
  {
    assert p * x <= p * y;
    MulAssoc(p, x, t);
    assert 0.0 <= (1.0 - p * x) * t;
  }

  /** The default tolerance of `golden_ratio_search`. */
  const DefaultTol: real := 0.0001

  /** A default call with a proper bracket always ends. */
  lemma DefaultTolStops(f: real -> real, r1: real, r2: real, a: real, b: real)
    requires GoldenRatios(r1, r2) && a != b
    ensures Search(f, r1, r2, a, b, DefaultTol, 2 * CeilLog2(Abs(b - a) / (2.0 * DefaultTol))).Ok?
  {
    SearchTerminates(f, r1, r2, a, b, DefaultTol);
  }
}
