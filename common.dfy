/** Pieces shared by the four one-dimensional searches: the error taxonomy,
    the counted evaluation that stands for the `call_func` closures, the
    bracket check-and-swap of the two bracketing searches, and the table row
    they both record. */
module Common {

  datatype Option<T> = None | Some(value: T)

  /** Why a search gives no trace. */
  datatype Error =
    | InvalidParameter   // delta <= 0 (dichotomy) or h <= tol (directional)
    | DegenerateBracket  // a == b (dichotomy, golden section)
    | SingularUpdate     // d1 == d0 in the secant update (a division by zero)
    | OutOfFuel          // the iteration bound ran out where the source keeps looping

  datatype Result<T> = Ok(value: T) | Err(error: Error)

  /** Puts the rows recorded so far in front of the rows of the rest of a run. */
  function Prepend<T>(done: seq<T>, rest: Result<seq<T>>): Result<seq<T>>
  {
    match rest
    case Ok(rows) => Ok(done + rows)
    case Err(e) => Err(e)
  }

  lemma PrependNothing<T>(rest: Result<seq<T>>)
    ensures Prepend([], rest) == rest
  {
    if rest.Ok? {
      assert [] + rest.value == rest.value;
    }
  }

  lemma PrependTwice<T>(p: seq<T>, q: seq<T>, rest: Result<seq<T>>)
    ensures Prepend(p, Prepend(q, rest)) == Prepend(p + q, rest)
  {
    if rest.Ok? {
      assert p + (q + rest.value) == (p + q) + rest.value;
    }
  }

  function Abs(x: real): (r: real)
    ensures 0.0 <= r
    ensures r == x || r == -x
  {
    if x < 0.0 then -x else x
  }

  function Pow(q: real, n: nat): real
  {
    if n == 0 then 1.0 else q * Pow(q, n - 1)
  }

  /** The least n with x <= 2^n (0 when x <= 1). */
  function CeilLog2(x: real): (n: nat)
    ensures x <= Pow(2.0, n)
    ensures n == 0 || Pow(2.0, n - 1) < x
    decreases if x <= 1.0 then 0 else x.Floor
  {
    if x <= 1.0 then 0 else 1 + CeilLog2(x / 2.0)
  }

  lemma MulAssoc(x: real, y: real, z: real)
    ensures x * (y * z) == (x * y) * z
  {
  }

  /** One evaluation of the objective (or derivative) that is counted: the
      `call_func`/`call_dfunc` closures bumping their `nonlocal call_count`. */
  method CountedCall(f: real -> real, x: real, count: nat) returns (y: real, count': nat)
    ensures y == f(x)
    ensures count' == count + 1
  {
    y := f(x);
    count' := count + 1;
  }

  /** The argument check at the head of the two bracketing searches: an empty
      bracket is rejected, a reversed one is put in order by the three-step
      arithmetic swap `a = a + b; b = a - b; a = a - b`. */
  function OrderBracket(a: real, b: real): (r: Result<(real, real)>)
    ensures r.Err? <==> a == b
    ensures r.Err? ==> r.error == DegenerateBracket
    ensures r.Ok? ==> r.value.0 < r.value.1
    ensures r.Ok? ==> r.value == if a < b then (a, b) else (b, a)
  {
    if b <= a then
      if a == b then Err(DegenerateBracket)
      else
        var a1 := a + b;
        var b1 := a1 - b;
        var a2 := a1 - b1;
        Ok((a2, b1))
    else
      Ok((a, b))
  }

  /** One row of the dichotomy and golden-section tables: the iteration
      number, the midpoint estimate and its value, the half-width, and the
      bracket with its two probe points. */
  datatype BracketRow = BracketRow(iter: nat, x: real, fx: real, halfWidth: real,
                                   a: real, b: real, c: real, d: real)

  /** The row recorded for bracket [a, b] with probes c, d. The value at the
      midpoint is taken with `f` directly: it is not a counted evaluation. */
  function RowOf(f: real -> real, iter: nat, a: real, b: real, c: real, d: real): BracketRow
  {
    BracketRow(iter, (a + b) / 2.0, f((a + b) / 2.0), Abs((b - a) / 2.0), a, b, c, d)
  }

  /** The narrowing rule both bracketing searches share, read off two
      successive rows: keep [a, d] when f(c) <= f(d), so that ties go left,
      and [c, b] otherwise. */
  predicate Narrowed(f: real -> real, prev: BracketRow, next: BracketRow)
  {
    if f(prev.c) <= f(prev.d) then next.a == prev.a && next.b == prev.d
    else next.a == prev.c && next.b == prev.b
  }

  /** The `convergence` list: the estimate column of the table. */
  function Convergence(rows: seq<BracketRow>): (xs: seq<real>)
    ensures |xs| == |rows|
    ensures forall i :: 0 <= i < |rows| ==> xs[i] == rows[i].x
  {
    seq(|rows|, i requires 0 <= i < |rows| => rows[i].x)
  }

  /** The `tolerance` list: the half-width column of the table. */
  function Tolerance(rows: seq<BracketRow>): (ts: seq<real>)
    ensures |ts| == |rows|
    ensures forall i :: 0 <= i < |rows| ==> ts[i] == rows[i].halfWidth
  {
    seq(|rows|, i requires 0 <= i < |rows| => rows[i].halfWidth)
  }
}
