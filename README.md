# numerical-calculus in Dafny

A model of the numerical core of the numerical-calculus teaching GUI. That
GUI does its computations inline, inside widget callbacks. The model lifts
each computational block out of its callback and states it over Dafny's
exact `real`. The modules are:

- `Common` (common.dfy): Option/Result, absolute value, powers, sums and dot
  products over index ranges, and Python's `split`/`join` on one separator.
  It also has `Times(factor, x)`, the product factor·x, in which rescaled
  equations are stated.
- `Ieee754` (ieee754.dfy): the IEEE 754 bit-field splitter. A packed pattern
  is formatted as a zero-padded binary string. That string is cut into sign,
  exponent and mantissa fields, 1/8/23 bits for binary32 and 1/11/52 for
  binary64, as in IEEE 754-2008, section 3.4. The string is then parsed back
  with base 2. A finite number beyond the binary32 range has no binary32
  pattern, and then no details are given.
- `GaussElimination` (gauss.dfy): forward elimination with optional partial
  pivoting, done in place on an augmented `array2<real>` buffer, followed by
  back substitution. Each in-place method is proved against a function on
  the buffer's contents. The functions are proved to keep the solution set
  and to make the matrix upper triangular. A returned vector is proved to be
  the one and only solution of A·x = b.
- `RootFinding` (roots.dfy): bisection and Newton-Raphson as bounded loops
  that build the iteration table. The loops are proved against the bracket
  sequence (bisection) and the iterate sequence (Newton).
- `Integration` (integration.dfy):
  - the trapezoid, Simpson 1/3 and Simpson 3/8 rules with the validation of
    N. Simpson 3/8 is computed by its accumulation loop;
  - Gauss-Legendre quadrature with 2, 3 or 4 points and the affine change of
    variables from [-1, 1] to [a, b];
  - the Gauss block's report: mapped nodes, values, result and absolute
    error against the exact integral;
  - proved: the weight sums, the symmetry of the Gauss tables, their first,
    second and third moments, and that every rule integrates constants
    exactly.
- `Cubics` (cubics.dfy): cubic polynomials, their exact integral, and the
  change of variables to the centre of an interval. Proved on single
  panels:
  - one trapezoid panel integrates a line exactly;
  - one Simpson 1/3 panel and one Simpson 3/8 panel integrate a cubic
    exactly;
  - the 2-, 3- and 4-point node sums over [-1, 1] integrate a cubic
    exactly.
- `Exactness` (exactness.dfy): the degrees of exactness of the whole rules
  on the grid of N panels, panel by panel through the antiderivative:
  - the trapezoid rule is exact for lines;
  - Simpson 1/3 (N even) and Simpson 3/8 (N a multiple of 3) are exact for
    cubics;
  - Gauss-Legendre with 2, 3 and 4 points is exact for cubics, so the Gauss
    block reports a zero error on a cubic.
- `LeastSquares` (least_squares.dfy):
  - data parsing; the linear, Vandermonde, linearised exponential and
    Fourier design matrices;
  - the products AᵗA and Aᵗy, the fitted values and the squared residual;
  - proved: solving the normal equations makes the residual orthogonal to
    every design column; the Fourier evaluation loop computes A·c; and
    A·c for the Vandermonde matrix equals Horner evaluation of the fitted
    polynomial (`PolynomialFitted`, `PowerSumIsHorner`; the code itself
    evaluates the polynomial with a matrix product).
- `Interpolation` (interpolation.dfy): the Lagrange front end.
  - Points are parsed and sorted in place by an insertion sort (proved
    sorted and a permutation).
  - The polynomial line is built with the 1e-10 threshold and the sign
    rules.
  - The estimate is evaluated with Horner's rule, proved equal to the
    printed power form.
- `Taylor` (taylor.dfy): the sin, cos and eˣ partial sums and their
  accumulation loop, the absolute and relative errors, and the plotted
  series. Proved: the sin sum is odd, the cos sum is even, the values at 0,
  and that the plotted curve equals the scalar loop.

Foreign computations enter as parameters:
- the integrand f and its derivative f′, which come from sympy;
- sin, cos, exp and ln;
- number parsing (`float`, `int`), as functions returning an Option;
- the linear solver (`np.linalg.solve`);
- the interpolating routine (`scipy.interpolate.lagrange`);
- the `.4f` number formatter;
- the exact integral;
- the square-root constants of the Gauss tables, as a datatype with their
  defining equations;
- the packed float patterns (`struct.pack`).

Where the model departs from the code:
- The Gaussian elimination block has no guard against a zero pivot or a zero
  diagonal entry; the Python code then divides by zero and carries inf/nan
  on. The model reports `Singular` instead. `SolveGauss` states exactly when
  that happens: forward elimination meets a zero pivot, or the triangular
  result has a zero on its diagonal.
- The dead first Simpson 3/8 expression at gui/integration_frame.py:117 is
  overwritten at line 123, so only the accumulation loop is modelled.

## Model

| member | source | states |
|---|---|---|
| Common.Split | gui/interpolation_frame.py:60 | `s.split(sep)` yields at least one piece and no piece contains the separator |
| Common.JoinSplit | gui/interpolation_frame.py:60 | joining the pieces of a split with the separator gives back the text |
| Common.SplitJoin | gui/interpolation_frame.py:60 | splitting joined pieces that are free of the separator gives back the pieces |
| Common.SplitNoSeparator | gui/least_squares_frame.py:75-76 | a text without the separator splits into itself alone |
| Ieee754.ParseBinary | utils/ieee754_converter.py:36 | `int(s, 2)` of a w-digit bit string is below 2^w |
| Ieee754.FormatBinary | utils/ieee754_converter.py:9-11 | `format(v, '0wb')` has exactly w digits, each '0' or '1', and parses back to v |
| Ieee754.FormatParseRoundTrip | utils/ieee754_converter.py:36 | formatting the parsed value of a bit string at its own width rebuilds the string |
| Ieee754.LeadingBitIsHighBit | utils/ieee754_converter.py:33 | the first digit is '1' exactly when the value is at least 2^(w-1) |
| Ieee754.GetBinary | utils/ieee754_converter.py:3-19 | "single" fails with SingleOverflow exactly when the binary32 packing overflows, and otherwise gives 32 bit digits whose value is the 32-bit pattern; "double" always gives 64 bit digits whose value is the 64-bit pattern; any other tag gives "" |
| Ieee754.SingleOverflowBoundary | utils/ieee754_converter.py:7 | the largest binary32 value packs, 2^128 - 2^103 overflows, infinity packs, and a negative number overflows exactly when its magnitude does |
| Ieee754.SplitFieldsLayout | utils/ieee754_converter.py:32-43 | cutting after digit 1 and after the exponent gives fields of widths 1/e/w-1-e that concatenate to the string; the parse-back is the pattern; the sign field is "1" iff the pattern is at least 2^(w-1) |
| Ieee754.SingleLayout | utils/ieee754_converter.py:32-36 | the binary32 string splits into 1 sign, 8 exponent and 23 mantissa digits that concatenate back to it, and parses back to the 32-bit pattern |
| Ieee754.DoubleLayout | utils/ieee754_converter.py:39-43 | the binary64 string splits into 1 sign, 11 exponent and 52 mantissa digits that concatenate back to it, and parses back to the 64-bit pattern |
| Ieee754.GetFloatDetails | utils/ieee754_converter.py:21-58 | it fails exactly when the input does not parse (NotANumber) or is a finite number beyond the binary32 range (SingleOverflow); otherwise it gives the 1/8/23 and 1/11/52 layouts of both patterns, with parse-backs equal to the patterns |
| GaussElimination.SwapRows | gui/linear_systems_frame.py:135 | rows i and j are exchanged and every other row is unchanged |
| GaussElimination.EliminateRow | gui/linear_systems_frame.py:139-140 | the update keeps the augmented shape and changes no row other than i |
| GaussElimination.ArgMaxRow | gui/linear_systems_frame.py:133 | the pivot row lies in k..n-1, maximises the magnitude in column k and is the first row that does |
| GaussElimination.Pivoted | gui/linear_systems_frame.py:131-136 | the optional swap keeps the augmented n x (n+1) shape |
| GaussElimination.PivotZeroMeansZeroColumn | gui/linear_systems_frame.py:133-139 | with pivoting, a zero pivot after the swap means column k is zero in every row from k down |
| GaussElimination.EliminateBelow | gui/linear_systems_frame.py:138-141 | eliminating below the pivot keeps the augmented shape |
| GaussElimination.Forward | gui/linear_systems_frame.py:130-141 | forward elimination, when it meets no zero pivot, returns an augmented matrix of the same size |
| GaussElimination.TriangularRow | gui/linear_systems_frame.py:148 | with zeros left of the diagonal, equation r reads M[r][r]·x[r] + Σ_{j>r} M[r][j]·x[j] |
| GaussElimination.SwapPreservesSolutions | gui/linear_systems_frame.py:135 | a row swap keeps the shape and the solution set |
| GaussElimination.RowCombinationPreservesSolutions | gui/linear_systems_frame.py:140 | replacing row i by row i minus f times row k keeps the solution set |
| GaussElimination.EliminateRowFacts | gui/linear_systems_frame.py:138-140 | the row update keeps the solution set, makes M[i][k] zero and keeps the columns left of k |
| GaussElimination.EliminateBelowFacts | gui/linear_systems_frame.py:138-141 | the inner loop keeps the solution set and the rows above, zeroes column k below the pivot and keeps the columns left of k |
| GaussElimination.PivotedFacts | gui/linear_systems_frame.py:131-136 | the optional swap keeps the solution set, the rows above k and the zeros already made |
| GaussElimination.EliminationStepFacts | gui/linear_systems_frame.py:138-141 | one step keeps the solution set and rows 0..k and extends the zeros to column k |
| GaussElimination.ForwardFacts | gui/linear_systems_frame.py:130-141 | a successful forward elimination is upper triangular, has nonzero pivots, keeps the solution set and never changes finished rows again |
| GaussElimination.StepFacts | gui/linear_systems_frame.py:130-141 | a step at column k leaves a matrix ready for column k + 1 with the solution set and the rows above kept |
| GaussElimination.StepMeets | gui/linear_systems_frame.py:130-141 | the promise for column k + 1 after a step gives the promise for column k |
| GaussElimination.ForwardStops | gui/linear_systems_frame.py:130-139 | at the last column or at a zero pivot the promise holds |
| GaussElimination.TriangularSolves | gui/linear_systems_frame.py:146-148 | a triangular system whose rows meet the back-substitution equations is solved by x |
| GaussElimination.RowDetermines | gui/linear_systems_frame.py:148 | in a row with a nonzero diagonal, two solutions that agree after i agree at i |
| GaussElimination.TriangularSolutionUnique | gui/linear_systems_frame.py:146-148 | a triangular system with a nonzero diagonal has at most one solution |
| GaussElimination.SwapRowsInPlace | gui/linear_systems_frame.py:135 | the buffer afterwards holds SwapRows of its old contents |
| GaussElimination.EliminateRowInPlace | gui/linear_systems_frame.py:139-140 | the buffer afterwards holds EliminateRow of its old contents |
| GaussElimination.PivotRow | gui/linear_systems_frame.py:133 | the scan returns ArgMaxRow of the buffer, the argmax of column k from row k |
| GaussElimination.PivotInPlace | gui/linear_systems_frame.py:131-136 | the buffer afterwards holds Pivoted of its old contents |
| GaussElimination.EliminateColumn | gui/linear_systems_frame.py:138-141 | the buffer afterwards holds EliminateBelow of its old contents |
| GaussElimination.ForwardEliminate | gui/linear_systems_frame.py:130-141 | it succeeds exactly when Forward does, and then the buffer holds Forward's result |
| GaussElimination.BackSubstituteStep | gui/linear_systems_frame.py:148 | solving row i for x[i] extends the solved rows by one |
| GaussElimination.KeptRow | gui/linear_systems_frame.py:147-148 | writing x[i] leaves the equations of the rows below satisfied |
| GaussElimination.SolvedRow | gui/linear_systems_frame.py:148 | x[i] = (M[i][n] - s) / M[i][i] satisfies equation i |
| GaussElimination.TailDot | gui/linear_systems_frame.py:148 | the loop computes `np.dot(M[i, i+1:n], x[i+1:n])` |
| GaussElimination.BackSubstitute | gui/linear_systems_frame.py:146-148 | it fails exactly when a diagonal entry is zero; otherwise every row meets its back-substitution equation |
| GaussElimination.Augment | gui/linear_systems_frame.py:125 | `np.hstack([A, b])` is an n x (n+1) augmented matrix |
| GaussElimination.AugmentSolves | gui/linear_systems_frame.py:124-125 | x solves the augmented system iff A·x = b |
| GaussElimination.SolveGauss | gui/linear_systems_frame.py:123-148 | a returned x solves A·x = b and is the only solution; it fails exactly when a pivot or a diagonal entry of the eliminated matrix is zero |
| RootFinding.BisectStep | gui/zeros_frames.py:134-147 | a step keeps one half of the bracket, chosen by the sign test, so the width halves |
| RootFinding.BracketWidth | gui/zeros_frames.py:144-147 | after n steps the width is (b - a) / 2^n, with 2^n >= 1 |
| RootFinding.BracketNested | gui/zeros_frames.py:144-147 | for any a and b, including a > b, every bracket end lies between min(a, b) and max(a, b), and the bracket keeps the orientation of [a, b] |
| RootFinding.ReversedBracketStops | gui/zeros_frames.py:120-142 | a > b is not rejected; with tol >= 0 its first row has a negative width and meets the stopping test |
| RootFinding.StepKeepsSignChange | gui/zeros_frames.py:140-147 | a step keeps f(a)·f(b) < 0 when f does not vanish at the midpoint |
| RootFinding.BracketSignChange | gui/zeros_frames.py:140-147 | with tol > 0, every bracket reached without stopping has a sign change |
| RootFinding.Bisection | gui/zeros_frames.py:116-149 | rejected with no rows iff f(a)·f(b) >= 0; at most 100 rows, row i is the bracket after i halvings; stops at the first row meeting the test and reports its midpoint; otherwise 100 rows and (b - a)/2^100 >= tol; with tol > 0 every row has a sign change |
| RootFinding.BisectionLoop | gui/zeros_frames.py:133-149 | the loop's outcome and table, once the bracket is valid, as for Bisection |
| RootFinding.Iterate | gui/zeros_frames.py:134-147 | one pass of the loop body appends the current bracket's row, keeping the table facts; it stops exactly when that row meets the test, and otherwise the next bracket is BisectStep of the current one |
| RootFinding.Halve | gui/zeros_frames.py:144-147 | the in-place update of a and b leaves exactly the bracket BisectStep defines |
| RootFinding.ExtendTrace | gui/zeros_frames.py:134-136 | appending the current bracket's row keeps the table facts |
| RootFinding.MaxIterationsWidth | gui/zeros_frames.py:140-149 | when the n-th row (counting from one) did not stop, its width is at least 2·tol, so (b - a)/2^n >= tol |
| RootFinding.BisectionRootInside | gui/zeros_frames.py:134-147 | every midpoint, and so the reported root, lies between min(a, b) and max(a, b), for either order of the ends |
| RootFinding.NewtonAtRoot | gui/zeros_frames.py:188-207 | an exact root with a usable derivative and tol > 0 is reported at once |
| RootFinding.NewtonOutcomeFacts | gui/zeros_frames.py:184-209 | a derivative failure happens at a point where abs(f′) < 1e-12; convergence needs tol > 0 |
| RootFinding.NewtonRowAt | gui/zeros_frames.py:185-195 | a table row holds x, f(x), a nonzero f′(x) and abs(x_{n+1} - x_n) |
| RootFinding.ExtendChain | gui/zeros_frames.py:192-209 | appending the next iterate's row keeps the chain of Newton steps |
| RootFinding.Newton | gui/zeros_frames.py:170-211 | the outcome is NewtonFrom's; at most 50 rows, each the Newton step of the previous; converged reports x_{n+1} with error < tol; a derivative failure is at a point with abs(f′) < 1e-12; max iterations means 50 rows |
| Integration.Step | gui/integration_frame.py:99 | N·h = b - a |
| Integration.Samples | gui/integration_frame.py:100-101 | N + 1 samples y_i = f(a + i·h) |
| Integration.SampleEnds | gui/integration_frame.py:100 | the first sample is f(a) and the last is f(b) |
| Integration.TrapezoidWeights | gui/integration_frame.py:107 | one weight per sample, N + 1 in all: 1, 2, ..., 2, 1 (their sum is in TrapezoidWeightSum) |
| Integration.Simpson13Weights | gui/integration_frame.py:112 | one weight per sample, N + 1 in all: 1, 4, 2, 4, ..., 4, 1 (their sum is in Simpson13WeightSum) |
| Integration.Simpson38Weights | gui/integration_frame.py:119-122 | one weight per sample, N + 1 in all: 1, 3, 3, 2, ..., 3, 3, 1 (the loop's sum is in Simpson38Sum) |
| Integration.TrapezoidIsWeighted | gui/integration_frame.py:107 | the slice formula equals h/2 times the weighted sum with weights 1, 2, ..., 2, 1 |
| Integration.Simpson13Interior | gui/integration_frame.py:112 | the interior weighted sum is 4 times the odd slice plus 2 times the even slice |
| Integration.Simpson13IsWeighted | gui/integration_frame.py:112 | the slice formula equals h/3 times the weighted sum with weights 1, 4, 2, ..., 4, 1 |
| Integration.Simpson38Sum | gui/integration_frame.py:119-122 | the loop's s is the weighted sum with weights 1, 3, 3, 2, ..., 3, 3, 1 |
| Integration.NewtonCotes | gui/integration_frame.py:99-123 | it fails iff N <= 0, or Simpson 1/3 with odd N, or Simpson 3/8 with N not a multiple of 3, with the error met first in the code; its value on lines and cubics is in Exactness.TrapezoidLineExact, Simpson13CubicExact and Simpson38CubicExact |
| Integration.CalcNewtonCotes | gui/integration_frame.py:99-126 | the block fails exactly as NewtonCotes does; otherwise it reports NewtonCotes's value, a step with N·h = b - a and the absolute error against the exact value |
| Integration.ApplyRule | gui/integration_frame.py:106-123 | the rule's value on the samples, with Simpson 3/8 by its loop |
| Integration.TrapezoidPrefix | gui/integration_frame.py:107 | the first hi trapezoid weights add up to 2·hi - 1 |
| Integration.Simpson13Prefix | gui/integration_frame.py:112 | the prefix sums of the Simpson 1/3 weights |
| Integration.Simpson38Prefix | gui/integration_frame.py:119-122 | the prefix sums of the Simpson 3/8 weights |
| Integration.TrapezoidWeightSum | gui/integration_frame.py:107 | the trapezoid weights add up to 2N |
| Integration.Simpson13WeightSum | gui/integration_frame.py:112 | for even N the Simpson 1/3 weights add up to 3N |
| Integration.Simpson38WeightSum | gui/integration_frame.py:119-123 | for N a multiple of 3, 3/8 of the weight sum is N |
| Integration.TrapezoidConstant | gui/integration_frame.py:107 | on constant samples k the trapezoid value is k·N·h |
| Integration.Simpson13Constant | gui/integration_frame.py:112 | on constant samples k, with N even, Simpson 1/3 gives k·N·h |
| Integration.Simpson38Constant | gui/integration_frame.py:119-123 | on constant samples k, with N a multiple of 3, Simpson 3/8 gives k·N·h |
| Integration.RuleConstant | gui/integration_frame.py:106-123 | every rule on constant samples gives k·N·h |
| Integration.NewtonCotesConstant | gui/integration_frame.py:99-123 | every accepted rule integrates a constant k exactly: k·(b - a) |
| Integration.GaussTable | gui/integration_frame.py:191-201 | the tables exist exactly for n = 2, 3, 4; they have n nodes and n weights, mirrored about 0, and the weights add up to 2 |
| Integration.MapNodeFacts | gui/integration_frame.py:207-208 | the change of variables maps -1 to a, 1 to b, 0 to the midpoint, with factor (b - a)/2 |
| Integration.MappedValues | gui/integration_frame.py:207-210 | one value f(x_i) per node, at the mapped node |
| Integration.GaussLegendre | gui/integration_frame.py:186-210 | it fails exactly when n is not 2, 3 or 4; its value on cubics is in Exactness.GaussCubicExact |
| Integration.GaussConstantExact | gui/integration_frame.py:191-210 | a constant k is integrated exactly: k·(b - a) |
| Integration.CalcGauss | gui/integration_frame.py:186-215 | fails with an unsupported point count iff n is not 2, 3 or 4; otherwise it reports the nodes mapped onto [a, b] by (b - a)/2·t_i + (a + b)/2, f at each of them, GaussLegendre's value and its absolute error against the exact integral |
| Integration.ValidConstantsFacts | gui/integration_frame.py:191-201 | the square roots in the tables are non-negative and square to 1/3, 3/5, 30, 6/5 and 3/7 ∓ 2/7·sqrt(6/5) |
| Integration.SymmetricThirdMoment | gui/integration_frame.py:191-201 | for a symmetric table Σ w_i·t_i³ = 0 |
| Integration.SymmetricFirstMoment | gui/integration_frame.py:191-201 | for a symmetric table Σ w_i·t_i = 0 |
| Integration.MirroredDot | gui/integration_frame.py:191-201 | a sum whose terms cancel in mirrored pairs is 0 |
| Integration.SecondMomentExact | gui/integration_frame.py:191-201 | every table integrates t² over [-1, 1] exactly: Σ w_i·t_i² = 2/3 |
| Integration.TwoPointSecondMoment | gui/integration_frame.py:192-193 | the 2-point table gives 2/3 |
| Integration.ThreePointSecondMoment | gui/integration_frame.py:195-196 | the 3-point table gives 2/3 |
| Integration.FourPointSecondMoment | gui/integration_frame.py:198-201 | the 4-point table gives 2/3 |
| Cubics.RecentreEval | gui/integration_frame.py:207 | the change of variables x = m + H·t: the cubic recentred at m with half-width H takes at t the value p takes at x |
| Cubics.RecentreIntegral | gui/integration_frame.py:207-208 | over [m - H, m + H] the exact integral of p is H·(2·g0 + 2/3·g2) for g the recentred cubic: odd terms integrate to 0 |
| Cubics.TrapezoidPanelExact | gui/integration_frame.py:107 | one trapezoid panel h/2·(p(lo) + p(lo + h)) is the exact integral of a line p over [lo, lo + h] |
| Cubics.SimpsonPanelExact | gui/integration_frame.py:112 | one Simpson 1/3 panel h/3·(p(m - h) + 4·p(m) + p(m + h)) is the exact integral of every cubic p over [m - h, m + h] |
| Cubics.Simpson38PanelExact | gui/integration_frame.py:119-123 | one Simpson 3/8 panel 3h/8·(p(x0) + 3·p(x1) + 3·p(x2) + p(x3)) at steps h is the exact integral of every cubic p over [x0, x3] |
| Cubics.TwoNodeCubic | gui/integration_frame.py:192-193 | nodes ±r with r² = 1/3 and weights 1, 1 sum a cubic g to 2·g0 + 2/3·g2, its integral over [-1, 1] |
| Cubics.ThreeNodeCubic | gui/integration_frame.py:195-196 | nodes -r, 0, r with r² = 3/5 and weights 5/9, 8/9, 5/9 sum a cubic g to its integral over [-1, 1] |
| Cubics.FourNodeCubic | gui/integration_frame.py:198-201 | mirrored nodes ±ro, ±ri with weights wo, wi, wi, wo sum a cubic g to its integral over [-1, 1] when wo + wi = 1 and wo·ro² + wi·ri² = 1/3 |
| Exactness.GridEnds | gui/integration_frame.py:99-101 | the antiderivative of p taken at the grid points grows from a to b by the exact integral of p |
| Exactness.TrapezoidByPanels | gui/integration_frame.py:107 | the first K + 1 trapezoid weights against the samples are the sum of the first K panels y_(k-1) + y_k, plus y_K once more when K is not the last index (interior weights are 2) |
| Exactness.TrapezoidTelescope | gui/integration_frame.py:107 | trapezoid panels that each give an increment of F add up to F[K] - F[0] |
| Exactness.TrapezoidLineExact | gui/integration_frame.py:99-107 | for every N > 0 the trapezoid rule on a line p returns the exact integral of p over [a, b] |
| Exactness.Simpson13ByPanels | gui/integration_frame.py:112 | the first 2K + 1 Simpson 1/3 weights against the samples are the sum of the first K panels y_(2k-2) + 4·y_(2k-1) + y_(2k), plus y_(2K) once more when 2K is not the last index |
| Exactness.Simpson13Telescope | gui/integration_frame.py:112 | Simpson 1/3 panels that each give an increment of F add up to F[2K] - F[0] |
| Exactness.Simpson13CubicExact | gui/integration_frame.py:99-112 | for every even N > 0 Simpson's 1/3 rule on a cubic p returns the exact integral of p over [a, b] |
| Exactness.Simpson38ByPanels | gui/integration_frame.py:119-123 | the first 3K + 1 Simpson 3/8 weights against the samples are the sum of the first K panels y_(3k-3) + 3·y_(3k-2) + 3·y_(3k-1) + y_(3k), plus y_(3K) once more when 3K is not the last index |
| Exactness.Simpson38Telescope | gui/integration_frame.py:119-123 | Simpson 3/8 panels that each give an increment of F add up to F[3K] - F[0] |
| Exactness.Simpson38CubicExact | gui/integration_frame.py:99-123 | for every N > 0 that is a multiple of 3, Simpson's 3/8 rule on a cubic p returns the exact integral of p over [a, b] |
| Exactness.FourPointMoments | gui/integration_frame.py:198-201 | the 4-point weights and squared nodes have second moment (18 - sqrt 30)/36·outer² + (18 + sqrt 30)/36·inner² = 1/3 |
| Exactness.TableCubicSum | gui/integration_frame.py:191-201 | each of the 2-, 3- and 4-point tables sums the values of a cubic g at its nodes to 2·g0 + 2/3·g2, the integral of g over [-1, 1] |
| Exactness.TableLineSum | gui/integration_frame.py:191-201 | each table sums the values of a line g at its nodes to 2·g0, whatever the values of its square roots |
| Exactness.MappedValuesAt | gui/integration_frame.py:207-210 | f at the node t_i mapped onto [a, b] is the recentred cubic at t_i |
| Exactness.GaussScaledSum | gui/integration_frame.py:207-210 | (b - a)/2 times the weighted sum of a cubic at the mapped nodes is its exact integral over [a, b] |
| Exactness.GaussCubicExact | gui/integration_frame.py:186-210 | for n = 2, 3 and 4 Gauss-Legendre succeeds on every cubic and returns its exact integral over [a, b] |
| Exactness.GaussLinearExact | gui/integration_frame.py:186-210 | for n = 2, 3 and 4 Gauss-Legendre returns p·(b² - a²)/2 + q·(b - a) for the line p·x + q, whatever the root constants |
| Exactness.CalcGaussCubicError | gui/integration_frame.py:212-215 | given the exact integral of a cubic, the Gauss block succeeds and reports an error of 0 |
| LeastSquares.ParseColumn | gui/least_squares_frame.py:75-76 | one value per chunk, from field k, iff every chunk has a field k that parses |
| LeastSquares.ParseData | gui/least_squares_frame.py:74-76 | X and Y have one entry per ';'-chunk; it succeeds iff fields 0 and 1 of every chunk parse, and then returns the two parsed columns; an X-column error is reported before any Y-column error |
| LeastSquares.ExtraParameter | gui/least_squares_frame.py:93 | `int(entry or default)`: the default for an empty entry, otherwise the parsed integer or an error |
| LeastSquares.LinearDesign | gui/least_squares_frame.py:89 | one row [1, x] per point |
| LeastSquares.Vandermonde | gui/least_squares_frame.py:95 | one row of m entries per point |
| LeastSquares.Powers | gui/least_squares_frame.py:95 | entry j is x^j, increasing powers |
| LeastSquares.LinearIsVandermonde | gui/least_squares_frame.py:89-95 | the linear matrix is the degree-1 Vandermonde matrix |
| LeastSquares.PolynomialColumns | gui/least_squares_frame.py:93-95 | degree + 1 columns, the degree defaulting to 2; an error for an unparsed entry or a degree below -1 |
| LeastSquares.FourierRow | gui/least_squares_frame.py:111-115 | row of m Fourier entries at x |
| LeastSquares.HarmonicColumns | gui/least_squares_frame.py:113-114 | column 2k - 1 is cos(k·x) and column 2k is sin(k·x) |
| LeastSquares.FourierDesign | gui/least_squares_frame.py:110-115 | one row of 1 + 2·terms entries per point |
| LeastSquares.FourierColumnOrder | gui/least_squares_frame.py:111-115 | the columns are 1, cos(1x), sin(1x), ..., cos(mx), sin(mx) |
| LeastSquares.ColumnStack | gui/least_squares_frame.py:115 | `column_stack` gives n rows, one entry per column |
| LeastSquares.BuildFourierDesign | gui/least_squares_frame.py:110-115 | the column-appending loop builds exactly FourierDesign |
| LeastSquares.Transpose | gui/least_squares_frame.py:119 | Aᵗ[j][i] = A[i][j] |
| LeastSquares.Gram | gui/least_squares_frame.py:120 | AᵗA is square, one row per column, and symmetric |
| LeastSquares.AtY | gui/least_squares_frame.py:121 | Aᵗy has one entry per column |
| LeastSquares.MatVec | gui/least_squares_frame.py:165 | A·c has one entry per row |
| LeastSquares.PartialGramRow | gui/least_squares_frame.py:120 | row j of AᵗA over the first h rows, entry by entry |
| LeastSquares.GramEntryIsDot | gui/least_squares_frame.py:120 | entry (j, k) of AᵗA is the dot product of columns j and k |
| LeastSquares.ColumnTimesFitted | gui/least_squares_frame.py:119-124 | column j of A against A·c equals row j of AᵗA against c |
| LeastSquares.GramRowStep | gui/least_squares_frame.py:120 | adding a row to the partial Gram row adds A[h-1][j]·A[h-1][k] to entry k |
| LeastSquares.Residual | gui/least_squares_frame.py:143 | y - e has one entry per point |
| LeastSquares.NormalEquationsOrthogonal | gui/least_squares_frame.py:118-124 | when (AᵗA)·c = Aᵗy, the residual y - A·c is orthogonal to every column of A |
| LeastSquares.ColumnOrthogonal | gui/least_squares_frame.py:118-124 | the same for one column j |
| LeastSquares.PowerSumShift | gui/least_squares_frame.py:164-165 | Σ c_j·x^j = c_0 + x·Σ c_{j+1}·x^j |
| LeastSquares.PowerSumIsHorner | gui/least_squares_frame.py:164-165 | the Vandermonde row against c is Horner's evaluation of c |
| LeastSquares.PolynomialFitted | gui/least_squares_frame.py:164-165 | fitted value i is Σ_j c_j·X_i^j |
| LeastSquares.FourierFitted | gui/least_squares_frame.py:146-157 | the idx loop computes A·c for the Fourier matrix |
| LeastSquares.AddHarmonic | gui/least_squares_frame.py:150-157 | one pass adds the two columns of harmonic k |
| LeastSquares.FourierStep | gui/least_squares_frame.py:150-157 | adding a_k·cos(kx) + b_k·sin(kx) brings coefficients 2k-1 and 2k in |
| LeastSquares.FittedAll | gui/least_squares_frame.py:146-157 | with every coefficient in, the values are A·c |
| LeastSquares.ExponentialFitted | gui/least_squares_frame.py:137-142 | one fitted value per point |
| LeastSquares.SquaredErrorFacts | gui/least_squares_frame.py:142-143 | the squared error is >= 0 and is 0 when the fitted values are the data |
| LeastSquares.Design | gui/least_squares_frame.py:87-116 | per model: [1, x] against Y; Vandermonde of degree + 1 columns; [1, x] against ln Y, failing iff some y <= 0; Fourier with 1 + 2·terms columns |
| LeastSquares.Fit | gui/least_squares_frame.py:74-166 | a report carries the parsed data, Design's matrix, AᵗA (symmetric) and Aᵗy, the solver's coefficients, A·c or a·e^(bx) as fitted values and Σ(Y - fitted)² >= 0 against the original Y; a parse error or a Design error is returned as is, and a failed solve gives SingularSystem |
| Interpolation.ParsePoint | gui/interpolation_frame.py:63 | a chunk gives a point iff it has exactly two ','-fields and both parse |
| Interpolation.PointsOf | gui/interpolation_frame.py:61-64 | point i comes from chunk i |
| Interpolation.ParsePoints | gui/interpolation_frame.py:60-64 | it succeeds iff every chunk parses, giving the points in order; otherwise the first failing chunk decides the error |
| Interpolation.SinkStep | gui/interpolation_frame.py:66 | a swap with a greater left neighbour keeps the insertion invariant |
| Interpolation.SinkDone | gui/interpolation_frame.py:66 | once the element stops sinking, the prefix is sorted |
| Interpolation.SortPoints | gui/interpolation_frame.py:66 | `points.sort()`: sorted by (x, y) and a permutation of the input |
| Interpolation.Xs | gui/interpolation_frame.py:67 | X[i] is the x of point i |
| Interpolation.Ys | gui/interpolation_frame.py:68 | Y[i] is the y of point i |
| Interpolation.SortedAbscissae | gui/interpolation_frame.py:66-68 | after sorting, X is non-decreasing and point i is (X[i], Y[i]) |
| Interpolation.SignPrefixCases | gui/interpolation_frame.py:80 | "- " iff c < 0; "+ " iff c >= 0 and i > 0; "" iff c >= 0 and i = 0 |
| Interpolation.NatString | gui/interpolation_frame.py:81 | the printed power has at least one digit |
| Interpolation.NatStringValue | gui/interpolation_frame.py:81 | the printed power is all decimal digits and reads back as the power |
| Interpolation.PrintedUpTo | gui/interpolation_frame.py:77-79 | at most one term per coefficient, each for a coefficient already visited |
| Interpolation.RenderStep | gui/interpolation_frame.py:77-81 | coefficient i appends its term text iff abs(c_i) > 1e-10 |
| Interpolation.TextStep | gui/interpolation_frame.py:76-81 | one loop pass extends the line to the first i + 1 coefficients |
| Interpolation.FormatPolynomial | gui/interpolation_frame.py:74-81 | the loop builds exactly the polynomial line |
| Interpolation.PrintedTermsMatch | gui/interpolation_frame.py:78-81 | every printed term has magnitude abs(c_i), the sign rule and power degree - i |
| Interpolation.PrintedInOrder | gui/interpolation_frame.py:77-78 | printed terms come in increasing coefficient index |
| Interpolation.PrintedExactly | gui/interpolation_frame.py:79 | coefficient i is printed iff abs(c_i) > 1e-10 |
| Interpolation.PrintedTerms | gui/interpolation_frame.py:74-81 | the line prints exactly the coefficients above the threshold, each with its magnitude, sign and power, in strictly decreasing powers |
| Interpolation.PowerFormAppend | gui/interpolation_frame.py:90 | appending a coefficient multiplies the rest of the power form by x |
| Interpolation.EvaluateIsPowerForm | gui/interpolation_frame.py:90 | `poly(x)` equals Σ c_i·x^(d-i), the polynomial as printed |
| Interpolation.CalculateLagrange | gui/interpolation_frame.py:58-91 | succeeds iff every chunk parses and the estimate text is empty or parses; the points are sorted and a permutation of the parsed ones; X, Y, coefficients and line come from them; an estimate exactly when its text is not empty, with value poly(x) |
| Taylor.Factorial | gui/error_frame.py:142 | n! >= 1 |
| Taylor.Alternating | gui/error_frame.py:142 | (-1)^i is 1 for even i and -1 for odd i |
| Taylor.Terms | gui/error_frame.py:141-150 | no terms for n <= 0, otherwise n terms, term i being the series term |
| Taylor.Approximate | gui/error_frame.py:138-150 | the loop computes the n-term partial sum, 0 when n <= 0 |
| Taylor.PartialSumStep | gui/error_frame.py:141-150 | the sum with n + 1 terms is the sum with n terms plus term n |
| Taylor.PowNegate | gui/error_frame.py:142 | (-x)^k = (-1)^k·x^k |
| Taylor.SineTermOdd | gui/error_frame.py:142 | each sine term is odd in x |
| Taylor.CosineTermEven | gui/error_frame.py:146 | each cosine term is even in x |
| Taylor.SineSumOdd | gui/error_frame.py:141-142 | the sine partial sum is odd in x |
| Taylor.CosineSumEven | gui/error_frame.py:145-146 | the cosine partial sum is even in x |
| Taylor.SineSumAtZero | gui/error_frame.py:141-142 | the sine sum at 0 is 0 |
| Taylor.TermAtZero | gui/error_frame.py:142-150 | at 0 every term vanishes except the leading 1 of cos and eˣ |
| Taylor.SumsAtZero | gui/error_frame.py:145-150 | with n >= 1 the cos and eˣ sums at 0 are 1 |
| Taylor.TermRow | gui/error_frame.py:169-175 | the term-i array over the grid |
| Taylor.TermRows | gui/error_frame.py:169-175 | the list comprehension holds term arrays 0..n-1 |
| Taylor.AddRows | gui/error_frame.py:169 | elementwise sum of two arrays |
| Taylor.SumRows | gui/error_frame.py:169-175 | `sum` of the arrays has the grid's length |
| Taylor.SumRowsColumn | gui/error_frame.py:169 | entry j of the summed arrays is the sum of the entries j |
| Taylor.PlotGrid | gui/error_frame.py:165 | `np.linspace(x - 3, x + 3, 400)`: 400 points from x - 3 to x + 3, neighbours 6/399 apart |
| Taylor.PlotApproximation | gui/error_frame.py:167-175 | no curve when n <= 0, otherwise one value per grid point |
| Taylor.PlotMatchesLoop | gui/error_frame.py:138-175 | at every grid point the plotted curve is the partial sum the scalar loop computes |
| Taylor.AbsoluteError | gui/error_frame.py:152 | abs(true - approx): non-negative, 0 iff exact |
| Taylor.RelativeErrorOf | gui/error_frame.py:153 | infinite iff true = 0; otherwise a non-negative r with r·abs(true) = abs_error |
| Taylor.CalculateTruncation | gui/error_frame.py:132-186 | succeeds iff x and n parse and n >= 1; an x or n that does not parse gives BadNumber, a parsed n <= 0 gives NoTerms; a report holds the true value, the n-term sum, both errors and the plotted curve, which is the n-term sum at every grid point |

## Left out

- User interface: widget construction, grids, option menus, text boxes, the report strings with their float format specifiers (`:.6f`, `:.8e`, `array2string`), and all plotting.
- Symbolic parsing, `lambdify`, differentiation and integration: f and f′ are arbitrary total functions on the reals, and the exact integral is an input. A symbolic entry that fails to parse (f is None) and a constant expression that `lambdify` turns into a scalar are not modelled.
- Floating point: all arithmetic is over exact reals. Rounding, `linspace` spacing error, inf/nan propagation and the representation error shown next to the IEEE fields are not modelled. Overflow of `x**k` and of `math.factorial` is not modelled either.
- `struct.pack`/`struct.unpack` between floats and bit patterns: a parsed number is represented by its binary64 pattern and by its binary32 pattern, which is absent exactly when packing as a binary32 raises OverflowError. That happens for a finite number whose magnitude rounds past the largest binary32 value, that is, at least 2^128 - 2^103. The binary32 pattern itself is not derived from the binary64 one. The reconstructed value is the pattern handed to the unpacking step.
- The reading of the matrix grid into A and b, which is widget input.
- `np.linalg.solve` and `scipy.interpolate.lagrange` are parameters. `Fit` assumes only that a returned vector is as long as the right-hand side.
- The sin, cos, exp and ln values and the square roots in the Gauss tables are parameters. The roots come with their defining equations.
- Exceptions: each block except the IEEE 754 one and the Gaussian elimination one catches every exception and prints "Erro" with the exception's message. The Gaussian elimination block (gui/linear_systems_frame.py:114-153) has no handler either; in the part modelled here it raises nothing, because numpy division by zero yields inf/nan rather than an exception (the model's `Singular` is the departure listed above). The model returns an error value naming the first failure the code would meet, but not the message text. In the truncation block, a parsed n <= 0 counts as such a failure: the label is first filled and then replaced by the error that plotting the scalar `sum([])` raises, so the model returns `NoTerms`. The IEEE 754 block catches nothing: its OverflowError escapes the callback and no report is written, and the model returns `SingleOverflow`.
- GaussElimination.SolveGauss: a zero pivot or a zero diagonal entry gives `Singular`, because the Python code divides by zero and continues with inf/nan.
- LeastSquares.SquaredErrorFacts: states only that the error is non-negative and zero on an exact fit, not that it is minimal over all coefficient vectors. The minimality follows from the orthogonality that NormalEquationsOrthogonal states, but is not proved.
- Taylor.PlotApproximation: with n <= 0 the code's `sum([])` is the scalar 0, not an array over the grid, and plotting it against the grid raises. The model reports no curve. The label text written just before the raise, which the handler then overwrites, is not modelled.
- Interpolation.SortPoints: Python's `list.sort` is Timsort. The model sorts by insertion, which gives the same sorted permutation, since the order is total on (x, y) pairs.
