/** Newton-Cotes rules on equally spaced samples and Gauss-Legendre
    quadrature with an affine change of variables. The integrand is an
    arbitrary total function on the reals; the square-root node constants are
    parameters with their algebraic facts stated. */
module Integration {
  import opened Common

  datatype NewtonCotesRule = Trapezoid | Simpson13 | Simpson38

  /** Why a quadrature request fails. For N == 0 the step divides by zero,
      for N < -1 the sample grid would have a negative number of points, and
      for N == -1 it is empty; the parity checks reject the Simpson rules;
      the Gauss tables exist only for 2, 3 and 4 points. */
  datatype QuadratureError =
    | ZeroIntervals
    | NegativeSampleCount
    | NoSamples
    | OddIntervals
    | NotMultipleOfThree
    | UnsupportedPointCount

  // ---------------------------------------------------------------------
  // Sample grid

  /** h = (b - a) / N. */
  function Step(a: real, b: real, N: int): (h: real)
    requires N > 0
    ensures N as real * h == b - a
  {
    (b - a) / N as real
  }

  /** x_i = a + i·h, the grid `linspace(a, b, N + 1)`. */
  function GridPoint(a: real, b: real, N: int, i: int): real
    requires N > 0
  {
    a + i as real * Step(a, b, N)
  }

  /** y_i = f(x_i) for i = 0..N. */
  function Samples(f: real -> real, a: real, b: real, N: int): (ys: seq<real>)
    requires N > 0
    ensures |ys| == N + 1
    ensures forall i :: 0 <= i <= N ==> ys[i] == f(GridPoint(a, b, N, i))
  {
    seq(N + 1, i => f(GridPoint(a, b, N, i)))
  }

  /** The grid starts at a and its last point is exactly b. */
  lemma SampleEnds(f: real -> real, a: real, b: real, N: int)
    requires N > 0
    ensures Samples(f, a, b, N)[0] == f(a)
    ensures Samples(f, a, b, N)[N] == f(b)
  {
    assert GridPoint(a, b, N, N) == b;
  }

  // ---------------------------------------------------------------------
  // Rules as written with slices

  /** Sum of ys[start], ys[start + stride], ... below stop: the slice
      ys[start:stop:stride]. */
  function StridedSum(ys: seq<real>, start: nat, stop: nat, stride: nat): real
    requires 0 < stride && stop <= |ys|
    decreases stop - start
  {
    if start >= stop then 0.0 else ys[start] + StridedSum(ys, start + stride, stop, stride)
  }

  /** h/2 · (y_0 + 2·Σ y_1..y_{N-1} + y_N). */
  function TrapezoidValue(ys: seq<real>, h: real): real
    requires |ys| >= 2
  {
    h / 2.0 * (ys[0] + 2.0 * Sum(ys, 1, |ys| - 1) + ys[|ys| - 1])
  }

  /** h/3 · (y_0 + 4·Σ odd interior + 2·Σ even interior + y_N). */
  function Simpson13Value(ys: seq<real>, h: real): real
    requires |ys| >= 2
  {
    var N := |ys| - 1;
    h / 3.0 * (ys[0] + 4.0 * StridedSum(ys, 1, N, 2) + 2.0 * StridedSum(ys, 2, N, 2) + ys[N])
  }

  // ---------------------------------------------------------------------
  // Rules as weight vectors

  /** Trapezoid weights 1, 2, 2, ..., 2, 1. */
  function TrapezoidWeights(N: nat): (w: seq<real>)
    ensures |w| == N + 1
  {
    seq(N + 1, i => if i == 0 || i == N then 1.0 else 2.0)
  }

  /** Simpson 1/3 weights 1, 4, 2, 4, ..., 4, 1. */
  function Simpson13Weights(N: nat): (w: seq<real>)
    ensures |w| == N + 1
  {
    seq(N + 1, i => if i == 0 || i == N then 1.0 else if i % 2 == 1 then 4.0 else 2.0)
  }

  /** Simpson 3/8 weights 1, 3, 3, 2, 3, 3, 2, ..., 3, 3, 1. */
  function Simpson38Weights(N: nat): (w: seq<real>)
    ensures |w| == N + 1
  {
    seq(N + 1, i => if i == 0 || i == N then 1.0 else if i % 3 == 0 then 2.0 else 3.0)
  }

  /** The first term of a dot product can be split off. */
  lemma DotFront(u: seq<real>, v: seq<real>, lo: nat, hi: nat)
    requires lo < hi <= |u| && hi <= |v|
    ensures Dot(u, v, lo, hi) == u[lo] * v[lo] + Dot(u, v, lo + 1, hi)
  {
    DotSplit(u, v, lo, lo + 1, hi);
  }

  /** A run of equal weights c gives c times the plain sum. */
  lemma {:induction false} DotConstantWeight(w: seq<real>, ys: seq<real>, c: real, lo: nat, hi: nat)
    requires lo <= hi <= |w| && hi <= |ys|
    requires forall i :: lo <= i < hi ==> w[i] == c
    ensures Dot(w, ys, lo, hi) == c * Sum(ys, lo, hi)
    decreases hi - lo
  {
    if lo < hi {
      DotConstantWeight(w, ys, c, lo, hi - 1);
    }
  }

  /** Against a constant vector k, a dot product is k times the weight sum. */
  lemma {:induction false} DotConstantSamples(w: seq<real>, ys: seq<real>, k: real, lo: nat, hi: nat)
    requires lo <= hi <= |w| && hi <= |ys|
    requires forall i :: lo <= i < hi ==> ys[i] == k
    ensures Dot(w, ys, lo, hi) == k * Sum(w, lo, hi)
    decreases hi - lo
  {
    if lo < hi {
      DotConstantSamples(w, ys, k, lo, hi - 1);
    }
  }

  /** Splitting off the two end points of a weighted sum. */
  lemma DotEnds(w: seq<real>, ys: seq<real>)
    requires |w| == |ys| >= 2
    ensures Dot(w, ys, 0, |ys|) == w[0] * ys[0] + Dot(w, ys, 1, |ys| - 1) + w[|ys| - 1] * ys[|ys| - 1]
  {
    DotSplit(w, ys, 0, 1, |ys|);
    DotSplit(w, ys, 1, |ys| - 1, |ys|);
  }

  /** The slice formula of the trapezoid rule is the weighted sum with
      weights 1, 2, ..., 2, 1. */
  lemma TrapezoidIsWeighted(ys: seq<real>, h: real)
    requires |ys| >= 2
    ensures TrapezoidValue(ys, h) == h / 2.0 * Dot(TrapezoidWeights(|ys| - 1), ys, 0, |ys|)
  {
    var N := |ys| - 1;
    var w := TrapezoidWeights(N);
    DotEnds(w, ys);
    DotConstantWeight(w, ys, 2.0, 1, N);
  }

  /** The interior of the Simpson 1/3 weighted sum from an odd index on is
      4 times the odd-index slice plus 2 times the even-index slice. */
  lemma {:induction false} Simpson13Interior(ys: seq<real>, lo: nat)
    requires |ys| >= 2 && (|ys| - 1) % 2 == 0
    requires lo % 2 == 1 && lo < |ys| - 1
    ensures Dot(Simpson13Weights(|ys| - 1), ys, lo, |ys| - 1)
      == 4.0 * StridedSum(ys, lo, |ys| - 1, 2) + 2.0 * StridedSum(ys, lo + 1, |ys| - 1, 2)
    decreases |ys| - lo
  {
    var N := |ys| - 1;
    var w := Simpson13Weights(N);
    DotFront(w, ys, lo, N);
    if lo + 1 < N {
      DotFront(w, ys, lo + 1, N);
      if lo + 2 < N {
        Simpson13Interior(ys, lo + 2);
      }
    }
  }

  /** The slice formula of Simpson's 1/3 rule is the weighted sum with
      weights 1, 4, 2, ..., 4, 1. */
  lemma Simpson13IsWeighted(ys: seq<real>, h: real)
    requires |ys| >= 2 && (|ys| - 1) % 2 == 0
    ensures Simpson13Value(ys, h) == h / 3.0 * Dot(Simpson13Weights(|ys| - 1), ys, 0, |ys|)
  {
    var N := |ys| - 1;
    DotEnds(Simpson13Weights(N), ys);
    Simpson13Interior(ys, 1);
  }

  // ---------------------------------------------------------------------
  // Simpson 3/8 accumulation loop

  /** The accumulation loop of Simpson's 3/8 rule: start from y_0 + y_N and
      add 2·y_i at interior multiples of 3 and 3·y_i elsewhere. */
  method Simpson38Sum(ys: seq<real>) returns (s: real)
    requires |ys| >= 2
    ensures s == Dot(Simpson38Weights(|ys| - 1), ys, 0, |ys|)
  {
    var N := |ys| - 1;
    ghost var w := Simpson38Weights(N);
    s := ys[0] + ys[N];
    for i := 1 to N
      invariant s == ys[0] + ys[N] + Dot(w, ys, 1, i)
    {
      if i % 3 == 0 {
        s := s + 2.0 * ys[i];
      } else {
        s := s + 3.0 * ys[i];
      }
    }
    DotEnds(w, ys);
  }

  // ---------------------------------------------------------------------
  // The Newton-Cotes block

  /** `calc_newton_cotes` on an integrand f, interval [a, b], N intervals and
      a rule: the failures come in the order the block meets them (the step,
      the grid, then the rule's own check). */
  function NewtonCotes(f: real -> real, a: real, b: real, N: int, rule: NewtonCotesRule): (r: Result<real, QuadratureError>)
    ensures r.Err? <==>
      N <= 0 || (rule == Simpson13 && N % 2 != 0) || (rule == Simpson38 && N % 3 != 0)
    ensures N == 0 ==> r == Err(ZeroIntervals)
    ensures N < -1 ==> r == Err(NegativeSampleCount)
    ensures N > 0 && rule == Simpson13 && N % 2 != 0 ==> r == Err(OddIntervals)
    ensures N > 0 && rule == Simpson38 && N % 3 != 0 ==> r == Err(NotMultipleOfThree)
  {
    if N == 0 then Err(ZeroIntervals)
    else if N < -1 then Err(NegativeSampleCount)
    else if N == -1 then
      // An empty grid: the Simpson checks see -1 % 2 == 1 and -1 % 3 == 2
      // first; the trapezoid rule fails on indexing.
      match rule
      case Trapezoid => Err(NoSamples)
      case Simpson13 => Err(OddIntervals)
      case Simpson38 => Err(NotMultipleOfThree)
    else
      if rule == Simpson13 && N % 2 != 0 then Err(OddIntervals)
      else if rule == Simpson38 && N % 3 != 0 then Err(NotMultipleOfThree)
      else Ok(RuleValue(rule, Samples(f, a, b, N), Step(a, b, N)))
  }

  /** The value of a rule on samples y_0..y_N with step h. */
  function RuleValue(rule: NewtonCotesRule, ys: seq<real>, h: real): real
    requires |ys| >= 2
  {
    match rule
    case Trapezoid => TrapezoidValue(ys, h)
    case Simpson13 => Simpson13Value(ys, h)
    case Simpson38 => 3.0 * h / 8.0 * Dot(Simpson38Weights(|ys| - 1), ys, 0, |ys|)
  }

  /** What the Newton-Cotes block reports: the step, the value and its
      absolute error against the exact integral it was given. */
  datatype NewtonCotesReport = NewtonCotesReport(step: real, value: real, error: real)

  /** The Newton-Cotes block, computing Simpson's 3/8 sum by its loop. */
  method CalcNewtonCotes(f: real -> real, a: real, b: real, N: int, rule: NewtonCotesRule, exact: real)
    returns (r: Result<NewtonCotesReport, QuadratureError>)
    ensures r.Err? <==> NewtonCotes(f, a, b, N, rule).Err?
    ensures r.Err? ==> r.error == NewtonCotes(f, a, b, N, rule).error
    ensures r.Ok? ==>
      && r.value.value == NewtonCotes(f, a, b, N, rule).value
      && r.value.step * N as real == b - a
      && r.value.error == Abs(exact - r.value.value)
  {
    var spec := NewtonCotes(f, a, b, N, rule);
    if spec.Err? {
      return Err(spec.error);
    }
    var h := Step(a, b, N);
    var ys := Samples(f, a, b, N);
    var value := ApplyRule(rule, ys, h);
    r := Ok(NewtonCotesReport(h, value, Abs(exact - value)));
  }

  /** The rule's value on the samples, Simpson's 3/8 sum by its loop. */
  method ApplyRule(rule: NewtonCotesRule, ys: seq<real>, h: real) returns (value: real)
    requires |ys| >= 2
    ensures value == RuleValue(rule, ys, h)
  {
    match rule {
      case Trapezoid =>
        value := TrapezoidValue(ys, h);
      case Simpson13 =>
        value := Simpson13Value(ys, h);
      case Simpson38 =>
        var s := Simpson38Sum(ys);
        value := 3.0 * h / 8.0 * s;
    }
  }

  // ---------------------------------------------------------------------
  // Weight sums and constant integrands

  lemma {:induction false} TrapezoidPrefix(N: nat, hi: nat)
    requires 1 <= hi <= N
    ensures Sum(TrapezoidWeights(N), 0, hi) == (2 * hi - 1) as real
  {
    if hi > 1 {
      TrapezoidPrefix(N, hi - 1);
    }
  }

  lemma {:induction false} Simpson13Prefix(N: nat, hi: nat)
    requires 1 <= hi <= N
    ensures Sum(Simpson13Weights(N), 0, hi) == (3 * hi - 2 + (hi - 1) % 2) as real
  {
    if hi > 1 {
      Simpson13Prefix(N, hi - 1);
    }
  }

  lemma {:induction false} Simpson38Prefix(N: nat, hi: nat)
    requires 1 <= hi <= N
    ensures Sum(Simpson38Weights(N), 0, hi) == (1 + 3 * (hi - 1) - (hi - 1) / 3) as real
  {
    if hi > 1 {
      Simpson38Prefix(N, hi - 1);
    }
  }

  /** The trapezoid weights add up to 2N; with the factor h/2 that is N·h. */
  lemma TrapezoidWeightSum(N: nat)
    requires N > 0
    ensures Sum(TrapezoidWeights(N), 0, N + 1) == 2.0 * N as real
  {
    TrapezoidPrefix(N, N);
  }

  /** The Simpson 1/3 weights add up to 3N for even N; with the factor h/3
      that is N·h. */
  lemma Simpson13WeightSum(N: nat)
    requires N > 0 && N % 2 == 0
    ensures Sum(Simpson13Weights(N), 0, N + 1) == 3.0 * N as real
  {
    Simpson13Prefix(N, N);
  }

  /** The Simpson 3/8 weights add up to 8N/3 for N a multiple of 3; with the
      factor 3h/8 that is N·h. */
  lemma Simpson38WeightSum(N: nat)
    requires N > 0 && N % 3 == 0
    ensures 3.0 / 8.0 * Sum(Simpson38Weights(N), 0, N + 1) == N as real
  {
    Simpson38Prefix(N, N);
    assert (1 + 3 * (N - 1) - (N - 1) / 3) + 1 == 3 * N - N / 3;
    assert 3 * (N / 3) == N;
  }

  /** A rule value h·factor·D with D = k·S and factor·S = n is k·n·h. */
  lemma ScaleConstant(factor: real, h: real, k: real, S: real, D: real, n: real)
    requires D == k * S && factor * S == n
    ensures h * factor * D == k * (h * n)
  {
    assert h * factor * (k * S) == k * h * (factor * S);
  }

  /** On constant samples k the trapezoid value is k·N·h. */
  lemma TrapezoidConstant(ys: seq<real>, h: real, k: real)
    requires |ys| >= 2 && forall i :: 0 <= i < |ys| ==> ys[i] == k
    ensures TrapezoidValue(ys, h) == k * (h * (|ys| - 1) as real)
  {
    var N := |ys| - 1;
    var w := TrapezoidWeights(N);
    TrapezoidIsWeighted(ys, h);
    DotConstantSamples(w, ys, k, 0, N + 1);
    TrapezoidWeightSum(N);
    ScaleConstant(1.0 / 2.0, h, k, Sum(w, 0, N + 1), Dot(w, ys, 0, N + 1), N as real);
  }

  /** On constant samples k, with N even, the Simpson 1/3 value is k·N·h. */
  lemma Simpson13Constant(ys: seq<real>, h: real, k: real)
    requires |ys| >= 2 && (|ys| - 1) % 2 == 0 && forall i :: 0 <= i < |ys| ==> ys[i] == k
    ensures Simpson13Value(ys, h) == k * (h * (|ys| - 1) as real)
  {
    var N := |ys| - 1;
    var w := Simpson13Weights(N);
    Simpson13IsWeighted(ys, h);
    DotConstantSamples(w, ys, k, 0, N + 1);
    Simpson13WeightSum(N);
    ScaleConstant(1.0 / 3.0, h, k, Sum(w, 0, N + 1), Dot(w, ys, 0, N + 1), N as real);
  }

  /** On constant samples k, with N a multiple of 3, the Simpson 3/8 value is
      k·N·h. */
  lemma Simpson38Constant(ys: seq<real>, h: real, k: real)
    requires |ys| >= 2 && (|ys| - 1) % 3 == 0 && forall i :: 0 <= i < |ys| ==> ys[i] == k
    ensures 3.0 * h / 8.0 * Dot(Simpson38Weights(|ys| - 1), ys, 0, |ys|) == k * (h * (|ys| - 1) as real)
  {
    var N := |ys| - 1;
    var w := Simpson38Weights(N);
    DotConstantSamples(w, ys, k, 0, N + 1);
    Simpson38WeightSum(N);
    ScaleConstant(3.0 / 8.0, h, k, Sum(w, 0, N + 1), Dot(w, ys, 0, N + 1), N as real);
  }

  /** On constant samples k every rule whose interval count it accepts
      gives k·N·h. */
  lemma RuleConstant(rule: NewtonCotesRule, ys: seq<real>, h: real, k: real)
    requires |ys| >= 2 && forall i :: 0 <= i < |ys| ==> ys[i] == k
    requires rule == Simpson13 ==> (|ys| - 1) % 2 == 0
    requires rule == Simpson38 ==> (|ys| - 1) % 3 == 0
    ensures RuleValue(rule, ys, h) == k * (h * (|ys| - 1) as real)
  {
    match rule {
      case Trapezoid => TrapezoidConstant(ys, h, k);
      case Simpson13 => Simpson13Constant(ys, h, k);
      case Simpson38 => Simpson38Constant(ys, h, k);
    }
  }

  /** Every Newton-Cotes rule integrates a constant k exactly: k·(b - a). */
  lemma NewtonCotesConstant(f: real -> real, a: real, b: real, N: int, rule: NewtonCotesRule, k: real)
    requires forall x :: f(x) == k
    requires NewtonCotes(f, a, b, N, rule).Ok?
    ensures NewtonCotes(f, a, b, N, rule).value == k * (b - a)
  {
    var h := Step(a, b, N);
    var ys := Samples(f, a, b, N);
    assert forall i :: 0 <= i < |ys| ==> ys[i] == k;
    RuleConstant(rule, ys, h, k);
  }

  // ---------------------------------------------------------------------
  // Gauss-Legendre quadrature

  /** The square-root constants the node tables are built from:
      1/√3, √(3/5), √30, √(6/5), and the two 4-point nodes
      √(3/7 - 2/7·√(6/5)) and √(3/7 + 2/7·√(6/5)). */
  datatype GaussConstants = GaussConstants(
    invSqrt3: real, sqrt3over5: real, sqrt30: real, sqrt6over5: real, inner: real, outer: real)

  /** The constants in the order listed above. */
  function Root(c: GaussConstants, i: int): real
  {
    if i == 0 then c.invSqrt3
    else if i == 1 then c.sqrt3over5
    else if i == 2 then c.sqrt30
    else if i == 3 then c.sqrt6over5
    else if i == 4 then c.inner
    else c.outer
  }

  /** The value each constant is the square root of. */
  function Square(c: GaussConstants, i: int): real
  {
    if i == 0 then 1.0 / 3.0
    else if i == 1 then 3.0 / 5.0
    else if i == 2 then 30.0
    else if i == 3 then 6.0 / 5.0
    else if i == 4 then 3.0 / 7.0 - 2.0 / 7.0 * c.sqrt6over5
    else 3.0 / 7.0 + 2.0 / 7.0 * c.sqrt6over5
  }

  /** Each constant is the non-negative root its name says. */
  predicate ValidConstants(c: GaussConstants)
  {
    forall i :: 0 <= i < 6 ==> Root(c, i) >= 0.0 && Root(c, i) * Root(c, i) == Square(c, i)
  }

  /** The six roots, one by one. */
  lemma ValidConstantsFacts(c: GaussConstants)
    requires ValidConstants(c)
    ensures c.invSqrt3 >= 0.0 && c.invSqrt3 * c.invSqrt3 == 1.0 / 3.0
    ensures c.sqrt3over5 >= 0.0 && c.sqrt3over5 * c.sqrt3over5 == 3.0 / 5.0
    ensures c.sqrt30 >= 0.0 && c.sqrt30 * c.sqrt30 == 30.0
    ensures c.sqrt6over5 >= 0.0 && c.sqrt6over5 * c.sqrt6over5 == 6.0 / 5.0
    ensures c.inner >= 0.0 && c.inner * c.inner == 3.0 / 7.0 - 2.0 / 7.0 * c.sqrt6over5
    ensures c.outer >= 0.0 && c.outer * c.outer == 3.0 / 7.0 + 2.0 / 7.0 * c.sqrt6over5
  {
    assert Root(c, 0) == c.invSqrt3 && Root(c, 1) == c.sqrt3over5 && Root(c, 2) == c.sqrt30;
    assert Root(c, 3) == c.sqrt6over5 && Root(c, 4) == c.inner && Root(c, 5) == c.outer;
  }

  /** A Gauss-Legendre rule on [-1, 1]: nodes and weights. */
  datatype GaussRule = GaussRule(nodes: seq<real>, weights: seq<real>)

  /** Nodes mirrored about 0 and weights equal at mirrored positions i and
      j = n - 1 - i. */
  predicate SymmetricRule(rule: GaussRule)
  {
    && |rule.nodes| == |rule.weights|
    && forall i, j :: 0 <= i < |rule.nodes| && 0 <= j < |rule.nodes| && i + j == |rule.nodes| - 1 ==>
         rule.nodes[i] == -rule.nodes[j] && rule.weights[i] == rule.weights[j]
  }

  /** The node and weight tables for n = 2, 3, 4; any other n has none. The
      tables are symmetric about 0 and their weights add up to 2, the length
      of [-1, 1]. */
  function GaussTable(n: int, c: GaussConstants): (r: Result<GaussRule, QuadratureError>)
    ensures r.Err? <==> !(2 <= n <= 4)
    ensures r.Ok? ==> |r.value.nodes| == |r.value.weights| == n
    ensures r.Ok? ==> SymmetricRule(r.value)
    ensures r.Ok? ==> Sum(r.value.weights, 0, n) == 2.0
  {
    if n == 2 then
      Ok(GaussRule([-c.invSqrt3, c.invSqrt3], [1.0, 1.0]))
    else if n == 3 then
      Ok(GaussRule([-c.sqrt3over5, 0.0, c.sqrt3over5], [5.0 / 9.0, 8.0 / 9.0, 5.0 / 9.0]))
    else if n == 4 then
      var wo := (18.0 - c.sqrt30) / 36.0;
      var wi := (18.0 + c.sqrt30) / 36.0;
      Ok(GaussRule([-c.outer, -c.inner, c.inner, c.outer], [wo, wi, wi, wo]))
    else
      Err(UnsupportedPointCount)
  }

  /** x = ((b - a)·t + (b + a)) / 2. */
  function MapNode(a: real, b: real, t: real): real
  {
    ((b - a) * t + (b + a)) / 2.0
  }

  /** The change of variables sends -1 to a, 1 to b and 0 to the midpoint,
      and stretches by the factor (b - a) / 2. */
  lemma MapNodeFacts(a: real, b: real, t: real)
    ensures MapNode(a, b, -1.0) == a && MapNode(a, b, 1.0) == b
    ensures MapNode(a, b, 0.0) == (a + b) / 2.0
    ensures MapNode(a, b, t) == (a + b) / 2.0 + (b - a) / 2.0 * t
  {
  }

  /** f at the mapped nodes. */
  function MappedValues(f: real -> real, a: real, b: real, nodes: seq<real>): (ys: seq<real>)
    ensures |ys| == |nodes|
    ensures forall i :: 0 <= i < |nodes| ==> ys[i] == f(MapNode(a, b, nodes[i]))
  {
    seq(|nodes|, i requires 0 <= i < |nodes| => f(MapNode(a, b, nodes[i])))
  }

  /** `calc_gauss`: factor · Σ w_i · f(x_i) with factor = (b - a) / 2. */
  function GaussLegendre(f: real -> real, a: real, b: real, n: int, c: GaussConstants): (r: Result<real, QuadratureError>)
    ensures r.Err? <==> !(2 <= n <= 4)
  {
    match GaussTable(n, c)
    case Err(e) => Err(e)
    case Ok(rule) =>
      Ok((b - a) / 2.0 * Dot(rule.weights, MappedValues(f, a, b, rule.nodes), 0, n))
  }

  /** The value of a supported rule, spelled out. */
  lemma GaussLegendreValue(f: real -> real, a: real, b: real, n: int, c: GaussConstants)
    requires 2 <= n <= 4
    ensures var rule := GaussTable(n, c).value;
      && GaussLegendre(f, a, b, n, c).Ok?
      && GaussLegendre(f, a, b, n, c).value == (b - a) / 2.0 * Dot(rule.weights, MappedValues(f, a, b, rule.nodes), 0, n)
  {
  }

  /** What the Gauss block reports: the mapped nodes x_i, the values
      f(x_i), the value and its absolute error against the exact integral it
      was given. */
  datatype GaussReport = GaussReport(mapped: seq<real>, values: seq<real>, value: real, error: real)

  /** The Gauss block: the table for n, the nodes mapped onto [a, b], the
      integrand there, the value and its absolute error. */
  function CalcGauss(f: real -> real, a: real, b: real, n: int, c: GaussConstants, exact: real): (r: Result<GaussReport, QuadratureError>)
    ensures r.Err? <==> !(2 <= n <= 4)
    ensures r.Err? ==> r.error == UnsupportedPointCount
    ensures r.Ok? ==>
      && r.value.value == GaussLegendre(f, a, b, n, c).value
      && |r.value.mapped| == |r.value.values| == n
      && (forall i :: 0 <= i < n ==>
            && r.value.mapped[i] == MapNode(a, b, GaussTable(n, c).value.nodes[i])
            && r.value.values[i] == f(r.value.mapped[i]))
      && r.value.error == Abs(exact - r.value.value)
  {
    match GaussTable(n, c)
    case Err(e) => Err(e)
    case Ok(rule) =>
      var mapped := seq(n, i requires 0 <= i < n => MapNode(a, b, rule.nodes[i]));
      var value := (b - a) / 2.0 * Dot(rule.weights, MappedValues(f, a, b, rule.nodes), 0, n);
      Ok(GaussReport(mapped, MappedValues(f, a, b, rule.nodes), value, Abs(exact - value)))
  }

  /** Gauss-Legendre integrates a constant k exactly: k·(b - a). */
  lemma GaussConstantExact(f: real -> real, a: real, b: real, n: int, c: GaussConstants, k: real)
    requires forall x :: f(x) == k
    requires 2 <= n <= 4
    ensures GaussLegendre(f, a, b, n, c) == Ok(k * (b - a))
  {
    var rule := GaussTable(n, c).value;
    var ys := MappedValues(f, a, b, rule.nodes);
    DotConstantSamples(rule.weights, ys, k, 0, n);
    assert Dot(rule.weights, ys, 0, n) == k * 2.0;
    assert GaussLegendre(f, a, b, n, c).value == (b - a) / 2.0 * (k * 2.0);
  }

  /** For weights and nodes symmetric about 0, Σ w_i·t_i = 0. */
  lemma SymmetricFirstMoment(rule: GaussRule)
    requires SymmetricRule(rule)
    ensures Dot(rule.weights, rule.nodes, 0, |rule.nodes|) == 0.0
  {
    var w, t := rule.weights, rule.nodes;
    forall i, j | 0 <= i < |t| && 0 <= j < |t| && i + j == |t| - 1
      ensures w[i] * t[i] == -(w[j] * t[j])
    {
      assert t[i] == -t[j] && w[i] == w[j];
    }
    MirroredDot(w, t, 0, |t|);
  }

  /** A dot product over [lo, hi) whose terms cancel in pairs mirrored about
      the centre of the range is 0. */
  lemma {:induction false} MirroredDot(u: seq<real>, v: seq<real>, lo: nat, hi: nat)
    requires lo <= hi <= |u| && hi <= |v|
    requires forall i, j :: lo <= i < hi && lo <= j < hi && i + j == lo + hi - 1 ==> u[i] * v[i] == -(u[j] * v[j])
    ensures Dot(u, v, lo, hi) == 0.0
    decreases hi - lo
  {
    if hi - lo == 1 {
      assert u[lo] * v[lo] == -(u[lo] * v[lo]);
    } else if hi - lo >= 2 {
      MirroredDot(u, v, lo + 1, hi - 1);
      DotFront(u, v, lo, hi);
      assert Dot(u, v, lo + 1, hi) == Dot(u, v, lo + 1, hi - 1) + u[hi - 1] * v[hi - 1];
      assert u[lo] * v[lo] == -(u[hi - 1] * v[hi - 1]);
    }
  }

  /** t_i² for every node. */
  function Squares(t: seq<real>): (sq: seq<real>)
    ensures |sq| == |t| && forall i :: 0 <= i < |t| ==> sq[i] == t[i] * t[i]
  {
    seq(|t|, i requires 0 <= i < |t| => t[i] * t[i])
  }

  /** t_i³ for every node. */
  function Cubes(t: seq<real>): (cu: seq<real>)
    ensures |cu| == |t| && forall i :: 0 <= i < |t| ==> cu[i] == t[i] * t[i] * t[i]
  {
    seq(|t|, i requires 0 <= i < |t| => t[i] * t[i] * t[i])
  }

  /** For weights and nodes symmetric about 0, Σ w_i·t_i³ = 0: t³ is odd. */
  lemma SymmetricThirdMoment(rule: GaussRule)
    requires SymmetricRule(rule)
    ensures Dot(rule.weights, Cubes(rule.nodes), 0, |rule.nodes|) == 0.0
  {
    var w, t, cu := rule.weights, rule.nodes, Cubes(rule.nodes);
    forall i, j | 0 <= i < |t| && 0 <= j < |t| && i + j == |t| - 1
      ensures w[i] * cu[i] == -(w[j] * cu[j])
    {
      assert t[i] == -t[j] && w[i] == w[j];
      assert cu[i] == -cu[j] by {
        assert (-t[j]) * (-t[j]) * (-t[j]) == -(t[j] * t[j] * t[j]);
      }
    }
    MirroredDot(w, cu, 0, |t|);
  }

  /** Σ w_i·t_i² over a rule. */
  function SecondMoment(rule: GaussRule): real
    requires |rule.nodes| == |rule.weights|
  {
    Dot(rule.weights, Squares(rule.nodes), 0, |rule.nodes|)
  }

  /** Each table integrates t² over [-1, 1] exactly: Σ w_i·t_i² = 2/3. */
  lemma SecondMomentExact(n: int, c: GaussConstants)
    requires ValidConstants(c) && 2 <= n <= 4
    ensures SecondMoment(GaussTable(n, c).value) == 2.0 / 3.0
  {
    ValidConstantsFacts(c);
    if n == 2 {
      TwoPointSecondMoment(c.invSqrt3);
    } else if n == 3 {
      ThreePointSecondMoment(c.sqrt3over5);
    } else {
      FourPointSecondMoment(c);
    }
  }

  lemma TwoPointSecondMoment(t: real)
    requires t * t == 1.0 / 3.0
    ensures SecondMoment(GaussRule([-t, t], [1.0, 1.0])) == 2.0 / 3.0
  {
    var sq := Squares([-t, t]);
    assert (-t) * (-t) == t * t;
    assert sq[0] == (-t) * (-t) && sq[1] == t * t;
    assert sq == [1.0 / 3.0, 1.0 / 3.0];
    assert Dot([1.0, 1.0], sq, 0, 2) == 2.0 / 3.0;
  }

  lemma ThreePointSecondMoment(t: real)
    requires t * t == 3.0 / 5.0
    ensures SecondMoment(GaussRule([-t, 0.0, t], [5.0 / 9.0, 8.0 / 9.0, 5.0 / 9.0])) == 2.0 / 3.0
  {
    var sq := Squares([-t, 0.0, t]);
    assert (-t) * (-t) == t * t;
    assert sq[0] == (-t) * (-t) && sq[1] == 0.0 && sq[2] == t * t;
    assert sq == [3.0 / 5.0, 0.0, 3.0 / 5.0];
    assert Dot([5.0 / 9.0, 8.0 / 9.0, 5.0 / 9.0], sq, 0, 3) == 2.0 / 3.0;
  }

  /** The 4-point arithmetic: 2·(w_o·t_o² + w_i·t_i²) = 2/3. */
  lemma FourPointSecondMoment(c: GaussConstants)
    requires ValidConstants(c)
    ensures SecondMoment(GaussTable(4, c).value) == 2.0 / 3.0
  {
    ValidConstantsFacts(c);
    var rule := GaussTable(4, c).value;
    var t := rule.nodes;
    var sq := Squares(t);
    assert (-c.outer) * (-c.outer) == c.outer * c.outer;
    assert (-c.inner) * (-c.inner) == c.inner * c.inner;
    var s, r := c.sqrt30, c.sqrt6over5;
    SqrtProduct(s, r);
    var wo, wi := (18.0 - s) / 36.0, (18.0 + s) / 36.0;
    var lo, hi := 3.0 / 7.0 - 2.0 / 7.0 * r, 3.0 / 7.0 + 2.0 / 7.0 * r;
    assert wo * hi + wi * lo == (108.0 / 7.0 - 4.0 / 7.0 * (s * r)) / 36.0;
    assert sq[0] == c.outer * c.outer && sq[1] == c.inner * c.inner;
    assert sq[2] == c.inner * c.inner && sq[3] == c.outer * c.outer;
    assert sq == [hi, lo, lo, hi];
    assert Dot([wo, wi, wi, wo], [hi, lo, lo, hi], 0, 4) == 2.0 * (wo * hi + wi * lo);
  }

  /** √30 · √(6/5) = 6. */
  lemma SqrtProduct(s30: real, s65: real)
    requires s30 >= 0.0 && s30 * s30 == 30.0
    requires s65 >= 0.0 && s65 * s65 == 6.0 / 5.0
    ensures s30 * s65 == 6.0
  {
    var p := s30 * s65;
    assert p * p == 36.0 by {
      assert p * p == (s30 * s30) * (s65 * s65);
    }
    var q := p + 6.0;
    assert q > 0.0;
    assert (p - 6.0) * q == 0.0;
    ZeroFactor(p - 6.0, q);
  }

  lemma ZeroFactor(x: real, y: real)
    requires x * y == 0.0 && y > 0.0
    ensures x == 0.0
  {
  }
}
