/** Truncation error of the Maclaurin series of sin, cos and eˣ: the partial
    sums accumulated term by term, the same sums taken over a grid of points
    for the plot, and the absolute and relative errors against the true
    value. The true values sin x, cos x and eˣ come from outside the model
    and enter as parameters. */
module Taylor {
  import opened Common

  datatype SeriesKind = Sine | Cosine | Exponential

  /** n! */
  function Factorial(n: nat): (r: nat)
    ensures r >= 1
  {
    if n == 0 then 1 else n * Factorial(n - 1)
  }

  /** (-1)^i */
  function Alternating(i: nat): (r: real)
    ensures r == 1.0 || r == -1.0
    ensures r == 1.0 <==> i % 2 == 0
  {
    if i % 2 == 0 then 1.0 else -1.0
  }

  /** Term i of a series at x:
      sin: (-1)^i·x^(2i+1)/(2i+1)!, cos: (-1)^i·x^(2i)/(2i)!, eˣ: x^i/i!. */
  function Term(kind: SeriesKind, x: real, i: nat): real
  {
    match kind
    case Sine => Alternating(i) * Pow(x, 2 * i + 1) / Factorial(2 * i + 1) as real
    case Cosine => Alternating(i) * Pow(x, 2 * i) / Factorial(2 * i) as real
    case Exponential => Pow(x, i) / Factorial(i) as real
  }

  /** The terms `for i in range(n_terms)`: none when n_terms <= 0. */
  function Terms(kind: SeriesKind, x: real, n: int): (t: seq<real>)
    ensures n <= 0 ==> t == []
    ensures n > 0 ==> |t| == n
    ensures forall i :: 0 <= i < |t| ==> t[i] == Term(kind, x, i)
  {
    if n <= 0 then [] else seq(n, i requires 0 <= i < n => Term(kind, x, i))
  }

  /** The partial sum of the first n terms, as a specification. */
  function PartialSum(kind: SeriesKind, x: real, n: int): real
  {
    var t := Terms(kind, x, n);
    Sum(t, 0, |t|)
  }

  /** The accumulation loop `approx_val += term` of the truncation tab. */
  method Approximate(kind: SeriesKind, x: real, n: int) returns (approx: real)
    ensures approx == PartialSum(kind, x, n)
    ensures n <= 0 ==> approx == 0.0
  {
    approx := 0.0;
    ghost var t := Terms(kind, x, n);
    var i := 0;
    while i < n
      invariant 0 <= i <= |t|
      invariant approx == Sum(t, 0, i)
    {
      approx := approx + Term(kind, x, i);
      i := i + 1;
    }
  }

  /** Sums agree on any range where the entries agree. */
  lemma {:induction false} SumAgree(s: seq<real>, u: seq<real>, hi: nat)
    requires hi <= |s| && hi <= |u|
    requires forall i :: 0 <= i < hi ==> s[i] == u[i]
    ensures Sum(s, 0, hi) == Sum(u, 0, hi)
  {
    if hi > 0 {
      SumAgree(s, u, hi - 1);
    }
  }

  /** Each loop iteration adds exactly the next term. */
  lemma PartialSumStep(kind: SeriesKind, x: real, n: nat)
    ensures PartialSum(kind, x, n + 1) == PartialSum(kind, x, n) + Term(kind, x, n)
  {
    var longer := Terms(kind, x, n + 1);
    var shorter := Terms(kind, x, n);
    SumAgree(longer, shorter, n);
  }

  // ---------------------------------------------------------------------
  // Symmetry and values at zero

  /** (-x)^k is x^k for even k and -x^k for odd k. */
  lemma {:induction false} PowNegate(x: real, k: nat)
    ensures Pow(-x, k) == Alternating(k) * Pow(x, k)
  {
    if k > 0 {
      PowNegate(x, k - 1);
      assert Pow(-x, k) == -x * (Alternating(k - 1) * Pow(x, k - 1));
      assert Alternating(k) == -Alternating(k - 1);
    }
  }

  /** 0^k is 0 for k >= 1 (and 1 for k = 0, by definition of Pow). */
  lemma PowZero(k: nat)
    requires k >= 1
    ensures Pow(0.0, k) == 0.0
  {
  }

  lemma NegateQuotient(a: real, d: real)
    requires d > 0.0
    ensures (-a) / d == -(a / d)
  {
  }

  /** A sine term is odd in x. */
  lemma SineTermOdd(x: real, i: nat)
    ensures Term(Sine, -x, i) == -Term(Sine, x, i)
  {
    var k := 2 * i + 1;
    PowNegate(x, k);
    assert k % 2 == 1;
    var s := Alternating(i);
    assert s * Pow(-x, k) == -(s * Pow(x, k));
    NegateQuotient(s * Pow(x, k), Factorial(k) as real);
  }

  /** A cosine term is even in x. */
  lemma CosineTermEven(x: real, i: nat)
    ensures Term(Cosine, -x, i) == Term(Cosine, x, i)
  {
    var k := 2 * i;
    PowNegate(x, k);
    assert k % 2 == 0;
  }

  /** The sine partial sum is an odd function of x. */
  lemma SineSumOdd(x: real, n: int)
    ensures PartialSum(Sine, -x, n) == -PartialSum(Sine, x, n)
  {
    var neg, pos := Terms(Sine, -x, n), Terms(Sine, x, n);
    forall i | 0 <= i < |neg| ensures neg[i] == -pos[i] {
      SineTermOdd(x, i);
    }
    SumNegate(neg, pos, |neg|);
  }


  /** The cosine partial sum is an even function of x. */
  lemma CosineSumEven(x: real, n: int)
    ensures PartialSum(Cosine, -x, n) == PartialSum(Cosine, x, n)
  {
    var neg, pos := Terms(Cosine, -x, n), Terms(Cosine, x, n);
    forall i | 0 <= i < |neg| ensures neg[i] == pos[i] {
      CosineTermEven(x, i);
    }
    SumAgree(neg, pos, |neg|);
  }

  /** Negating every entry negates the sum. */
  lemma {:induction false} SumNegate(s: seq<real>, u: seq<real>, hi: nat)
    requires hi <= |s| && hi <= |u|
    requires forall i :: 0 <= i < hi ==> s[i] == -u[i]
    ensures Sum(s, 0, hi) == -Sum(u, 0, hi)
  {
    if hi > 0 {
      SumNegate(s, u, hi - 1);
    }
  }


  /** At x = 0 every sine term vanishes, so the sine sum is 0 for every n. */
  lemma {:induction false} SineSumAtZero(n: int)
    ensures PartialSum(Sine, 0.0, n) == 0.0
  {
    if n > 0 {
      SineSumAtZero(n - 1);
      PartialSumStep(Sine, 0.0, n - 1);
      TermAtZero(Sine, n - 1);
    }
  }

  /** Every term at x = 0 vanishes except the leading 1 of cos and eˣ. */
  lemma TermAtZero(kind: SeriesKind, i: nat)
    ensures kind == Sine || i >= 1 ==> Term(kind, 0.0, i) == 0.0
    ensures kind != Sine && i == 0 ==> Term(kind, 0.0, i) == 1.0
  {
    match kind
    case Sine => PowZero(2 * i + 1);
    case Cosine => if i >= 1 { PowZero(2 * i); }
    case Exponential => if i >= 1 { PowZero(i); }
  }

  /** At x = 0 only the first cosine and exponential terms are non-zero, and
      both are 1; so with at least one term either sum is 1. */
  lemma {:induction false} SumsAtZero(kind: SeriesKind, n: int)
    requires kind != Sine && n >= 1
    ensures PartialSum(kind, 0.0, n) == 1.0
  {
    PartialSumStep(kind, 0.0, n - 1);
    TermAtZero(kind, n - 1);
    if n == 1 {
      assert PartialSum(kind, 0.0, 0) == 0.0;
    } else {
      SumsAtZero(kind, n - 1);
    }
  }


  // ---------------------------------------------------------------------
  // The plotted series

  /** The term-i array over the plotting grid: `x_range**k / k!` and so on. */
  function TermRow(kind: SeriesKind, xs: seq<real>, i: nat): (row: seq<real>)
    ensures |row| == |xs| && forall j :: 0 <= j < |xs| ==> row[j] == Term(kind, xs[j], i)
  {
    seq(|xs|, j requires 0 <= j < |xs| => Term(kind, xs[j], i))
  }

  /** The list comprehension of term arrays, one per term. */
  function TermRows(kind: SeriesKind, xs: seq<real>, n: nat): (rows: seq<seq<real>>)
    ensures |rows| == n && forall i :: 0 <= i < n ==> rows[i] == TermRow(kind, xs, i)
  {
    seq(n, i requires 0 <= i < n => TermRow(kind, xs, i))
  }

  /** Elementwise sum of two arrays of one length. */
  function AddRows(u: seq<real>, v: seq<real>): (w: seq<real>)
    requires |u| == |v|
    ensures |w| == |u| && forall j :: 0 <= j < |u| ==> w[j] == u[j] + v[j]
  {
    seq(|u|, j requires 0 <= j < |u| => u[j] + v[j])
  }

  /** Elementwise sum of a non-empty list of arrays of length m, added from
      the first to the last as Python's `sum` does (its start value 0 is
      broadcast, so it contributes nothing). */
  function SumRows(rows: seq<seq<real>>, m: nat): (w: seq<real>)
    requires |rows| >= 1 && forall i :: 0 <= i < |rows| ==> |rows[i]| == m
    ensures |w| == m
  {
    if |rows| == 1 then rows[0]
    else AddRows(SumRows(rows[..|rows| - 1], m), rows[|rows| - 1])
  }

  /** The plotted approximation `sum([...term arrays...])`. With no terms the
      list is empty and Python's `sum` returns the scalar 0 rather than an
      array: None here. */
  function PlotApproximation(kind: SeriesKind, xs: seq<real>, n: int): (r: Option<seq<real>>)
    ensures r.None? <==> n <= 0
    ensures r.Some? ==> |r.value| == |xs|
  {
    if n <= 0 then None else Some(SumRows(TermRows(kind, xs, n), |xs|))
  }

  /** Entry j of every array in the list. */
  function Column(rows: seq<seq<real>>, m: nat, j: nat): (c: seq<real>)
    requires j < m && forall i :: 0 <= i < |rows| ==> |rows[i]| == m
    ensures |c| == |rows| && forall i :: 0 <= i < |rows| ==> c[i] == rows[i][j]
  {
    seq(|rows|, i requires 0 <= i < |rows| => rows[i][j])
  }

  /** Entry j of the elementwise sum is the sum of the entries j. */
  lemma {:induction false} SumRowsColumn(rows: seq<seq<real>>, m: nat, j: nat)
    requires |rows| >= 1 && j < m && forall i :: 0 <= i < |rows| ==> |rows[i]| == m
    ensures SumRows(rows, m)[j] == Sum(Column(rows, m, j), 0, |rows|)
  {
    if |rows| > 1 {
      var init := rows[..|rows| - 1];
      SumRowsColumn(init, m, j);
      SumAgree(Column(rows, m, j), Column(init, m, j), |init|);
    }
  }

  /** The plotted curve uses the same terms as the scalar loop: at every
      grid point it is the partial sum there. */
  lemma PlotMatchesLoop(kind: SeriesKind, xs: seq<real>, n: int)
    requires n >= 1
    ensures PlotApproximation(kind, xs, n).Some?
    ensures forall j :: 0 <= j < |xs| ==> PlotApproximation(kind, xs, n).value[j] == PartialSum(kind, xs[j], n)
  {
    var rows := TermRows(kind, xs, n);
    forall j | 0 <= j < |xs|
      ensures PlotApproximation(kind, xs, n).value[j] == PartialSum(kind, xs[j], n)
    {
      SumRowsColumn(rows, |xs|, j);
      assert Column(rows, |xs|, j) == Terms(kind, xs[j], n);
    }
  }

  // ---------------------------------------------------------------------
  // Errors and the whole computation

  /** |true - approx|: zero exactly when the approximation is exact. */
  function AbsoluteError(trueValue: real, approx: real): (e: real)
    ensures e >= 0.0
    ensures e == 0.0 <==> trueValue == approx
    ensures e == trueValue - approx || e == approx - trueValue
  {
    Abs(trueValue - approx)
  }

  /** A relative error, or `float('inf')`. */
  datatype RelativeError = Infinite | Finite(value: real)

  /** |abs_error / true|, infinite when the true value is 0. */
  function RelativeErrorOf(trueValue: real, absError: real): (r: RelativeError)
    requires absError >= 0.0
    ensures r.Infinite? <==> trueValue == 0.0
    ensures r.Finite? ==> r.value >= 0.0 && r.value * Abs(trueValue) == absError
  {
    if trueValue != 0.0 then
      var q := absError / trueValue;
      QuotientTimes(absError, trueValue);
      Finite(Abs(q))
    else Infinite
  }

  /** |a / d|·|d| = a for a >= 0 and d non-zero. */
  lemma QuotientTimes(a: real, d: real)
    requires a >= 0.0 && d != 0.0
    ensures Abs(a / d) * Abs(d) == a
  {
    if d > 0.0 {
      assert a / d >= 0.0;
      assert (a / d) * d == a;
    } else {
      assert a / d <= 0.0;
      assert (-(a / d)) * (-d) == (a / d) * d;
      assert (a / d) * d == a;
    }
  }

  /** BadNumber: x or n does not parse. NoTerms: with n <= 0 the plotted
      approximation is the scalar 0, plotting it against the grid raises,
      and the handler replaces the report with the error. */
  datatype TruncationError = BadNumber | NoTerms

  /** The numbers shown in the label, and the dashed approximation curve. */
  datatype TruncationReport = TruncationReport(
    trueValue: real, approx: real, absError: real, relError: RelativeError, curve: seq<real>)

  /** The number of points of the plotting grid. */
  const GridSize: nat := 400

  /** `np.linspace(x - 3, x + 3, 400)`: evenly spaced, both ends included. */
  function PlotGrid(x: real): (xs: seq<real>)
    ensures |xs| == GridSize
    ensures xs[0] == x - 3.0 && xs[GridSize - 1] == x + 3.0
    ensures forall j :: 0 <= j < GridSize - 1 ==> xs[j + 1] - xs[j] == 6.0 / 399.0
  {
    seq(GridSize, j requires 0 <= j < GridSize => x - 3.0 + 6.0 * j as real / 399.0)
  }

  /** The true value of the selected function, supplied from outside. */
  function TrueValue(kind: SeriesKind, x: real, sin: real -> real, cos: real -> real, exp: real -> real): real
  {
    match kind
    case Sine => sin(x)
    case Cosine => cos(x)
    case Exponential => exp(x)
  }

  /** `calculate_truncation`: parse x and n, accumulate the n-term
      approximation, compare it with the true value, and build the plotted
      approximation over the grid around x. */
  method CalculateTruncation(kind: SeriesKind, xText: string, nText: string,
                             parseReal: string -> Option<real>, parseInt: string -> Option<int>,
                             sin: real -> real, cos: real -> real, exp: real -> real)
    returns (r: Result<TruncationReport, TruncationError>)
    ensures r.Ok? <==> parseReal(xText).Some? && parseInt(nText).Some? && parseInt(nText).value >= 1
    ensures r.Err? && parseReal(xText).Some? && parseInt(nText).Some? ==> r.error == NoTerms
    ensures parseReal(xText).None? || parseInt(nText).None? ==> r == Err(BadNumber)
    ensures r.Ok? ==>
      var x := parseReal(xText).value;
      var n := parseInt(nText).value;
      && r.value.trueValue == TrueValue(kind, x, sin, cos, exp)
      && r.value.approx == PartialSum(kind, x, n)
      && r.value.absError == AbsoluteError(r.value.trueValue, r.value.approx)
      && r.value.relError == RelativeErrorOf(r.value.trueValue, r.value.absError)
      && |r.value.curve| == GridSize
      && forall j :: 0 <= j < GridSize ==> r.value.curve[j] == PartialSum(kind, PlotGrid(x)[j], n)
  {
    var xv := parseReal(xText);
    if xv.None? {
      return Err(BadNumber);
    }
    var nv := parseInt(nText);
    if nv.None? {
      return Err(BadNumber);
    }
    var x, n := xv.value, nv.value;
    var trueValue := TrueValue(kind, x, sin, cos, exp);
    var approx := Approximate(kind, x, n);
    var absError := AbsoluteError(trueValue, approx);
    var relError := RelativeErrorOf(trueValue, absError);
    var grid := PlotGrid(x);
    var curve := PlotApproximation(kind, grid, n);
    if curve.None? {
      return Err(NoTerms);
    }
    PlotMatchesLoop(kind, grid, n);
    r := Ok(TruncationReport(trueValue, approx, absError, relError, curve.value));
  }
}
