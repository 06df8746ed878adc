# One-dimensional searches, modelled in Dafny

This project models the four one-dimensional minimisation routines of
`one_dimensional/methods.py` and proves properties of them:

- **dichotomy search** (`dichotomy_search`) narrows a bracket `[a, b]`. It compares `f` at two probes `delta` apart around the midpoint.
- **golden-section search** (`golden_ratio_search`) keeps two interior points at the golden fractions of the bracket. It reuses one cached value per step.
- **directional search** (`directional_search`) tries a signed step `h` from the best point so far. A strict improvement is taken and the step is multiplied by 1.2. A failure multiplies it by -0.5.
- **secant search on the derivative** (`sectant_search`) follows the chord through `(x0, df(x0))` and `(x1, df(x1))` to its root until `|df(x1)| <= tol`.

Each routine is modelled twice: once as a specification and once as an imperative method.

The specification is a recursive function `Loop`/`Search` over exact `real`s. It returns the table of rows the routine records, or the error it raises. An iteration bound `fuel` stands in for loops that may never exit. When it runs out, the result is `Err(OutOfFuel)`.

The imperative method (`DichotomySearch`, `GoldenRatioSearch`, `DirectionalSearch`, `SecantSearch`) follows the source loop statement by statement:

- the same state and the same update order (secant search keeps its reassigned pair `x0, x1` in the locals `p0, p1`);
- the in-place arithmetic swap of a reversed bracket;
- the table appended row by row.

The `nonlocal call_count` closures become `Common.CountedCall`, an explicit counter passed through every counted evaluation. Each method is proved to return exactly what `Search` returns, together with its evaluation count. The properties are then lemmas about `Search`.

Files, one module each:

- `common.dfy` (`Common`): error taxonomy, `Result`, the counted call, the bracket check-and-swap, the row of the two bracketing searches, and the `convergence`/`tolerance` projections.
- `dichotomy.dfy` (`Dichotomy`), `golden.dfy` (`GoldenSection`), `directional.dfy` (`Directional`), `secant.dfy` (`Secant`).

The code does not check `tol > 0`, nor `delta < 2 tol`. The consequences:

- **Golden-section search with `tol <= 0` never stops** (`GoldenSection.SearchStalls`). With `tol > 0` it always stops, whatever `f` is (`GoldenSection.SearchTerminates`).
- **Dichotomy search with `delta >= 2 tol` and a bracket wider than `2 tol` never stops** (`Dichotomy.SearchStalls`). Its bracket width tends to `delta`, not to 0.
- **A `log2` iteration bound and a non-increasing width hold only under conditions.** The bound needs `delta < 2 tol` (`Dichotomy.SearchStops`). The width never grows only while it is at least `delta` (`Dichotomy.WidthNonIncreasing`).

Two more details follow the code exactly:

- **The directional phase.** A zero step is labelled refinement, as the code's `h > 0` test does.
- **`SingularUpdate`** happens exactly when `d1 == d0`, where the code divides by zero. A denominator that is merely near zero is not an error.

The default arguments are the constants `DefaultDelta`, `DefaultTol` and `DefaultStep` of each module. Each entry point takes every parameter explicitly. On a default call:

- `Dichotomy.DefaultsStop`: the defaults satisfy `delta < 2 tol`, so a default dichotomy call always stops.
- `GoldenSection.DefaultTolStops`: the default `tol` is positive, so a default golden-section call always stops.
- `Directional.DefaultsAccepted`: the default `h` exceeds the default `tol`, so a default directional call never raises `InvalidParameter`.
- `Secant.DefaultTol` is not negative, so `Secant.AffineStopsAtOnce` covers a default secant call.

The golden-section constants `(3 - sqrt 5)/2` and `(sqrt 5 - 1)/2` are the parameters `r1`, `r2`. Every property that needs them requires `GoldenSection.GoldenRatios`: `0 < r2`, `r1 + r2 == 1` and `r2 * r2 == r1`.

The condition `r1 + r2 == 1` alone is not enough to keep `a < c < d < b`. `GoldenSection.SumToOneIsNotEnough` shows this with a concrete example:

- ratios `0.45`/`0.55`, `f(x) = (x - 0.4)^2` on `[0, 1]`;
- after one step left and one step right, the new `d` lies below the new `c`.

## Model

| member | source | states |
|---|---|---|
| Common.CountedCall | one_dimensional/methods.py:12-17 | a counted evaluation returns `f(x)` and raises the count by exactly one |
| Common.OrderBracket | one_dimensional/methods.py:21-28 | fails with `DegenerateBracket` iff `a == b`; otherwise the three-step swap yields the ordered pair: `(a, b)` if `a < b`, else `(b, a)` |
| Common.Convergence | one_dimensional/methods.py:61 | one entry per table row, entry i being row i's midpoint estimate |
| Common.Tolerance | one_dimensional/methods.py:62 | one entry per table row, entry i being row i's half-width |
| Dichotomy.Probes | one_dimensional/methods.py:37-38 | the probes are exactly `delta` apart and centred on the midpoint (`c + d == a + b`) |
| Dichotomy.Narrow | one_dimensional/methods.py:53-56 | the new bracket is ordered, keeps one endpoint, has width `(w + delta)/2`, and goes left when `f(c) == f(d)` |
| Dichotomy.Loop | one_dimensional/methods.py:35-56 | the rows the loop records from `[a, b]` on: the row, the stop test `abs(b - a) <= 2 tol`, then `Narrow`; `OutOfFuel` once the bound is spent (its properties: `LoopCompleted`, `LoopStops`, `LoopStalls`) |
| Dichotomy.Search | one_dimensional/methods.py:19-56 | `InvalidParameter` for `delta <= 0`, then `OrderBracket`, then `Loop` from pass 1 (its properties: `SearchCompleted`, `SearchErrors`, `SearchStops`) |
| Dichotomy.DichotomySearch | one_dimensional/methods.py:19-58 | the imperative loop returns exactly `Search`'s table or error; it made `2 (rows - 1)` counted evaluations; `x_min` is the last row's midpoint |
| Dichotomy.LoopCompleted | one_dimensional/methods.py:35-56 | every table from the loop has this shape: rows numbered on, each recording midpoint, `f(midpoint)`, half-width and probes; each row but the last failed the stop test and was narrowed by the `f(c) <= f(d)` rule; the last passed; at most fuel + 1 rows |
| Dichotomy.SearchCompleted | one_dimensional/methods.py:19-62 | a successful run had `delta > 0` and `a != b`; its table starts from the ordered bracket and has the completed shape; `convergence` and `tolerance` have equal length; the last tolerance is `<= tol` |
| Dichotomy.SearchErrors | one_dimensional/methods.py:19-23 | `delta <= 0` gives `InvalidParameter`, then `a == b` gives `DegenerateBracket`; past these checks no other error occurs |
| Dichotomy.LoopOnlyRunsOutOfFuel | one_dimensional/methods.py:35-56 | the loop itself raises nothing |
| Dichotomy.SearchSwapped | one_dimensional/methods.py:21-28 | calling with `(b, a)` gives the same run as calling with `(a, b)` |
| Dichotomy.WidthAt | one_dimensional/methods.py:53-56 | after i steps, the width's excess over `delta` equals the initial excess divided by `2^i` |
| Dichotomy.WidthNonIncreasing | one_dimensional/methods.py:53-56 | when the initial width is at least `delta`, every width stays `>= delta` and no step widens the bracket |
| Dichotomy.LoopStalls | one_dimensional/methods.py:50-56 | with `2 tol <= delta` and a bracket wider than `2 tol`, the loop never exits |
| Dichotomy.SearchStalls | one_dimensional/methods.py:19-56 | the same for the whole search: the result is `OutOfFuel` for every bound |
| Dichotomy.LoopStops | one_dimensional/methods.py:50-56 | with `delta < 2 tol`, k steps suffice once `w - delta <= (2 tol - delta) 2^k` |
| Dichotomy.SearchStops | one_dimensional/methods.py:19-56 | with `delta < 2 tol`, every run finishes within `ceil(log2((w - delta)/(2 tol - delta)))` steps |
| Dichotomy.DefaultsStop | one_dimensional/methods.py:4 | with the defaults `delta = 1e-5` and `tol = 1e-4`, every call with `a != b` succeeds within the log2 bound, so the stall cannot happen |
| GoldenSection.RatiosOrdered | one_dimensional/methods.py:99-100 | the golden ratios satisfy `0 < r1 < r2 < 1` |
| GoldenSection.Shrink | one_dimensional/methods.py:120-132 | one narrowing on the cached values: left keeps `a`, moves `b` to `d` and `d` to `c`; right moves `a` to `c` and `c` to `d`; one new evaluation (its properties: `ShrinkKeeps`, `StepRecorded`) |
| GoldenSection.Loop | one_dimensional/methods.py:105-132 | the rows the loop records: the row, the stop test `abs(b - a) <= 2 tol`, then `Shrink`; `OutOfFuel` once the bound is spent (its properties: `LoopCompleted`, `LoopStops`, `LoopStalls`) |
| GoldenSection.Search | one_dimensional/methods.py:84-132 | `OrderBracket`, the two initial evaluations, then `Loop` from pass 1 (its properties: `SearchCompleted`, `SearchErrors`, `SearchTerminates`) |
| GoldenSection.GoldenRatioSearch | one_dimensional/methods.py:84-134 | the imperative loop returns exactly `Search`'s table or error; it made `rows + 1` counted evaluations (2 initial, 1 per step); `x_min` is the last midpoint |
| GoldenSection.Step | one_dimensional/methods.py:120-132 | the in-place update of `a, b, c, d, f_c, f_d` is the narrowing step `Shrink`, with one counted evaluation |
| GoldenSection.InteriorOrdered | one_dimensional/methods.py:99-100 | probes at the golden fractions lie strictly inside and in order: `a < c < d < b` |
| GoldenSection.StartPlaced | one_dimensional/methods.py:99-102 | initialisation places `c` and `d` at the fractions `r1`, `r2`, and both cached values are `f` there |
| GoldenSection.ShrinkKeeps | one_dimensional/methods.py:120-132 | either branch keeps `c`, `d` at the fractions `r1`, `r2` of the new bracket, shrinks the width by the factor `r2`, and keeps `f_c == f(c)` and `f_d == f(d)` |
| GoldenSection.RowRecords | one_dimensional/methods.py:107-114 | a recorded row has `a < c < d < b`, the midpoint with `f` there, and the half-width |
| GoldenSection.StepRecorded | one_dimensional/methods.py:120-132 | the step taken on cached values is the `f(c) <= f(d)` rule on the true values, and the kept interior point carries over |
| GoldenSection.LoopCompleted | one_dimensional/methods.py:105-132 | every table from the loop has the completed shape: recorded rows with ordered probes; each row but the last failed the stop test, was narrowed by the `f(c) <= f(d)` rule and reuses a probe; the last passed; at most fuel + 1 rows |
| GoldenSection.SearchCompleted | one_dimensional/methods.py:84-138 | a successful run had `a != b`; its table starts from the ordered bracket and has the completed shape; the projections have equal length; the last tolerance is `<= tol` |
| GoldenSection.SearchErrors | one_dimensional/methods.py:84-86 | `a == b` gives `DegenerateBracket`; no other error occurs |
| GoldenSection.LoopOnlyRunsOutOfFuel | one_dimensional/methods.py:105-132 | the loop itself raises nothing |
| GoldenSection.SearchSwapped | one_dimensional/methods.py:84-91 | calling with `(b, a)` gives the same run as calling with `(a, b)` |
| GoldenSection.NarrowedWidth | one_dimensional/methods.py:120-132 | from a recorded row, either narrowing leaves width `r2` times the old one |
| GoldenSection.CompletedShrinking | one_dimensional/methods.py:120-132 | in a completed table, each bracket is `r2` times as wide as the one before |
| GoldenSection.WidthDecay | one_dimensional/methods.py:117-132 | row i of a completed table has width `r2^i (b - a)` |
| GoldenSection.LoopStops | one_dimensional/methods.py:117-132 | k steps suffice once `r2^k` times the width is at most `2 tol` |
| GoldenSection.SearchStops | one_dimensional/methods.py:84-132 | a run with k steps of fuel finishes when `r2^k abs(b - a) <= 2 tol` |
| GoldenSection.LoopStalls | one_dimensional/methods.py:117-118 | with `tol <= 0`, the loop never exits |
| GoldenSection.SearchStalls | one_dimensional/methods.py:84-118 | with `tol <= 0` and `a != b`, every run ends `OutOfFuel` |
| GoldenSection.SearchTerminates | one_dimensional/methods.py:84-132 | with `tol > 0` and `a != b`, every `f` gives a successful run within `2 ceil(log2(abs(b - a) / (2 tol)))` steps |
| GoldenSection.DefaultTolStops | one_dimensional/methods.py:72 | with the default `tol = 1e-4`, every call with `a != b` succeeds within that bound |
| GoldenSection.SumToOneIsNotEnough | one_dimensional/methods.py:120-132 | with ratios summing to 1 but not golden, two steps can put `d` below `c` |
| Directional.PhaseOf | one_dimensional/methods.py:167-168 | expansion for `h > 0`, refinement otherwise, so a zero step is refinement (the phase column is pinned by `SignedStepRecovers`) |
| Directional.SignedStepRecovers | one_dimensional/methods.py:167-168 | the `abs(h)` and phase columns determine the signed step; the phase is expansion iff `h > 0` |
| Directional.Trial | one_dimensional/methods.py:190-198 | one trial never raises the best value; it lowers it iff `f(x + h) < f_prev`; the step magnitude is then multiplied by 1.2, otherwise by 0.5 |
| Directional.Loop | one_dimensional/methods.py:190-207 | the rows the loop appends: while `abs(h) > tol`, a `Trial` and the row of its result; `OutOfFuel` once the bound is spent (its properties: `LoopCompleted`, `LoopRunsAway`) |
| Directional.Search | one_dimensional/methods.py:171-207 | `InvalidParameter` for `h <= tol`, then the start row as pass 0 and `Loop` (its properties: `SearchCompleted`, `SearchErrors`, `SearchFindsBest`) |
| Directional.DirectionalSearch | one_dimensional/methods.py:171-207 | the imperative loop returns exactly `Search`'s table or error; it made one counted evaluation per row; the final point, value and step are the last row's, with `abs(h) <= tol` |
| Directional.TrialFollows | one_dimensional/methods.py:190-198 | a trial is accepted iff `f(x + h) < f_prev`, then moves and multiplies the step by 1.2; otherwise it keeps the point and multiplies the step by -0.5; `f_prev == f(x_prev)` stays true |
| Directional.LoopCompleted | one_dimensional/methods.py:190-207 | every table from the loop has the completed shape: rows numbered on, each with `fx == f(x)` and with `abs(h)` and the phase of one signed step; each row but the last had `abs(h) > tol` and its successor follows the trial rule; the last has `abs(h) <= tol` |
| Directional.SearchCompleted | one_dimensional/methods.py:171-211 | a successful run had `h > tol`; row 0 is the start point with `f(x0)` and `abs(h)`; there is at least one trial; the shape above holds; the projections have equal length; each `tolerance` entry is the magnitude of that row's signed step, and the last one, like the final step itself, is `<= tol` |
| Directional.SearchErrors | one_dimensional/methods.py:171-172 | `h <= tol` gives `InvalidParameter`; no other error occurs |
| Directional.LoopOnlyRunsOutOfFuel | one_dimensional/methods.py:190-207 | the loop itself raises nothing |
| Directional.Descends | one_dimensional/methods.py:194-198 | along a completed table the best value never increases, and strictly decreases whenever the point moves |
| Directional.SearchFindsBest | one_dimensional/methods.py:174-207 | the final value is `f` at the final point, is `<= f(x0)`, and is no greater than any recorded value |
| Directional.LoopRunsAway | one_dimensional/methods.py:190-198 | on an objective that decreases to the right, starting from a forward step, the loop never exits |
| Directional.SearchRunsAway | one_dimensional/methods.py:171-198 | the same for the whole search: every run ends `OutOfFuel` |
| Directional.Convergence | one_dimensional/methods.py:210 | one entry per row, entry i being row i's point |
| Directional.Tolerance | one_dimensional/methods.py:211 | one entry per row, entry i being row i's `abs(h)` |
| Directional.DefaultsAccepted | one_dimensional/methods.py:149 | with the defaults `h = 0.01` and `tol = 1e-4`, the argument check passes; a default call fails only with `OutOfFuel` |
| Secant.SecantPoint | one_dimensional/methods.py:253 | the secant update `x1 - d1 (x1 - x0) / (d1 - d0)`, defined only for `d1 != d0` (characterised by `ChordRoot` and `AffineRoot`) |
| Secant.Loop | one_dimensional/methods.py:250-254 | the rows the loop appends: while `abs(df(x1)) > tol`, `SingularUpdate` on `d1 == d0`, else the update and its row; `OutOfFuel` once the bound is spent (its properties: `LoopCompleted`, `LoopErrors`) |
| Secant.Search | one_dimensional/methods.py:244-254 | the placeholder start row, then `Loop`; no argument check (its properties: `SearchCompleted`, `SearchErrors`) |
| Secant.SecantSearch | one_dimensional/methods.py:244-254 | the imperative loop returns exactly `Search`'s table or error; it made `3 (rows - 1) + 1` counted `df` evaluations; the final `x1` has `abs(df(x1)) <= tol` |
| Secant.Update | one_dimensional/methods.py:252-253 | two counted `df` evaluations; the pair moves to `(x1, chord root)` iff `df(x1) != df(x0)` |
| Secant.LoopUnfolds | one_dimensional/methods.py:250-254 | a pass that neither stops nor fails records the row of the new pair and continues from it |
| Secant.LoopSingular | one_dimensional/methods.py:250-253 | a pass with `df(x1) == df(x0)` fails with `SingularUpdate` |
| Secant.ChordRoot | one_dimensional/methods.py:253 | the update is the zero of the chord through `(x0, d0)` and `(x1, d1)`: `d0 (x1 - p) == d1 (x0 - p)` |
| Secant.LoopCompleted | one_dimensional/methods.py:250-254 | every table from the loop has the completed shape: `d0`, `d1` are `df` at the pair; rows after the first hold `x1`, `f(x1)`, `df(x1)` and `abs(x0 - x1)`; each row but the last had `abs(d1) > tol`, `d1 != d0`, and the next pair is `(x1, chord root)`; the last has `abs(d1) <= tol` |
| Secant.SearchCompleted | one_dimensional/methods.py:244-257 | a successful table starts with the placeholder row of `(x0, x1)`, has the completed shape, and ends with `abs(df(x1)) <= tol`; `convergence` and `tolerance` hold a placeholder first, then `x1` and the signed `df(x1)` |
| Secant.LoopErrors | one_dimensional/methods.py:250-254 | the loop fails only with `SingularUpdate` or when the bound runs out |
| Secant.SearchErrors | one_dimensional/methods.py:244-254 | the search has no argument check; it fails only with `SingularUpdate` or `OutOfFuel` |
| Secant.SamePointsSingular | one_dimensional/methods.py:250-253 | starting from two equal points with `abs(df) > tol`, the first update fails with `SingularUpdate` |
| Secant.AffineRoot | one_dimensional/methods.py:253 | on an affine derivative `m x + c` with `m != 0` and distinct points, one update lands exactly on the root |
| Secant.AffineStopsAtOnce | one_dimensional/methods.py:244-254 | so on a quadratic objective the search succeeds with at most two rows |
| Secant.Convergence | one_dimensional/methods.py:256 | one entry per row, entry i being row i's estimate (a placeholder in row 0) |
| Secant.Tolerance | one_dimensional/methods.py:257 | one entry per row, entry i being row i's signed `df(x1)` (a placeholder in row 0) |

## Left out

- Printing is not modelled: the PrettyTable objects and the coloured console summaries, including the directional summary that prints `x_prev` and `f_prev` in each other's places. The model returns the table rows, the evaluation count and the final estimate instead.
- `round(..., n)` on table entries is not modelled. Rows hold the exact values, and `convergence`/`tolerance` are projected from the unrounded rows.
- IEEE-754 arithmetic is not modelled. All arithmetic is on exact reals:
  - the three-step swap `a = a + b; b = a - b; a = a - b` is exact here;
  - `sqrt(5)` is replaced by the parameters `r1`, `r2`, constrained by `GoldenSection.GoldenRatios`.
- GoldenSection.GoldenRatioSearch: the ratios are parameters rather than the two fixed constants. The method's contract holds for any `r1`, `r2`, and the golden-section properties are proved under `GoldenRatios`.
- Loops that never exit are cut off by the `fuel` parameter and reported as `Err(OutOfFuel)`. The model says nothing about a run longer than its bound.
- Directional search has no general termination proof; it can diverge (`Directional.SearchRunsAway`). Secant search has none either.
- Secant search: the derivative values recorded in the table and in row 0 are taken with `df` directly, as the source does. They are not counted.
- A derivative that is merely near zero is not an error. Only exact equality `d1 == d0` divides by zero.
- `one_dimensional/charts.py` (matplotlib plotting and file output) is not part of this model.
