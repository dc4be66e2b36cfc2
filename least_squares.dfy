/** Least-squares fitting: parsing the data text, the linear, polynomial
    (Vandermonde), linearised exponential and Fourier design matrices, the
    normal-equation products AᵗA and Aᵗy, the fitted values and the squared
    residual. Number parsing, cos, sin, exp, ln and the linear solver are
    outside the model and enter as parameters. */
module LeastSquares {
  import opened Common

  type Matrix = seq<seq<real>>

  datatype FitModel = Linear | Polynomial | Exponential | Fourier

  datatype FitError =
    | BadNumber            // a field or the extra parameter does not parse
    | MissingField         // a data chunk has no second field
    | NegativeColumnCount  // a polynomial degree below -1
    | NonPositiveY         // the exponential model with some y <= 0
    | SingularSystem       // the solver rejects AᵗA

  /** Every row of A has m entries. */
  predicate Rectangular(A: Matrix, m: nat)
  {
    forall i :: 0 <= i < |A| ==> |A[i]| == m
  }

  // ---------------------------------------------------------------------
  // Data text

  /** Field k of a comma-separated chunk, if there is one. */
  function Field(chunk: string, k: nat): Option<string>
  {
    var fields := Split(chunk, ',');
    if k < |fields| then Some(fields[k]) else None
  }

  /** Field k of the chunk exists and parses as a number. */
  predicate FieldParses(chunk: string, k: nat, parse: string -> Option<real>)
  {
    Field(chunk, k).Some? && parse(Field(chunk, k).value).Some?
  }

  /** Every chunk has a field k that parses. */
  predicate ColumnParses(chunks: seq<string>, k: nat, parse: string -> Option<real>)
  {
    forall i :: 0 <= i < |chunks| ==> FieldParses(chunks[i], k, parse)
  }

  /** Field k of every chunk, parsed; the first chunk that lacks it or does
      not parse decides the error. */
  function ParseColumn(chunks: seq<string>, k: nat, parse: string -> Option<real>): (r: Result<seq<real>, FitError>)
    ensures r.Ok? <==> ColumnParses(chunks, k, parse)
    ensures r.Ok? ==> |r.value| == |chunks|
    ensures r.Ok? ==> forall i :: 0 <= i < |chunks| ==> r.value[i] == parse(Field(chunks[i], k).value).value
  {
    if |chunks| == 0 then Ok([])
    else
      match Field(chunks[0], k)
      case None => Err(MissingField)
      case Some(text) =>
        match parse(text)
        case None => Err(BadNumber)
        case Some(v) =>
          match ParseColumn(chunks[1..], k, parse)
          case Err(e) => Err(e)
          case Ok(rest) => Ok([v] + rest)
  }

  /** The data text: one point per ';'-chunk, x from its first ','-field and
      y from its second. All x are read before any y. */
  function ParseData(text: string, parse: string -> Option<real>): (r: Result<(seq<real>, seq<real>), FitError>)
    ensures r.Ok? ==> |r.value.0| == |r.value.1| == |Split(text, ';')|
    ensures r.Ok? <==> ColumnParses(Split(text, ';'), 0, parse) && ColumnParses(Split(text, ';'), 1, parse)
    ensures r.Ok? ==> r.value == (ParseColumn(Split(text, ';'), 0, parse).value, ParseColumn(Split(text, ';'), 1, parse).value)
    ensures ParseColumn(Split(text, ';'), 0, parse).Err? ==> r == Err(ParseColumn(Split(text, ';'), 0, parse).error)
    ensures ParseColumn(Split(text, ';'), 0, parse).Ok? && ParseColumn(Split(text, ';'), 1, parse).Err? ==>
      r == Err(ParseColumn(Split(text, ';'), 1, parse).error)
  {
    var chunks := Split(text, ';');
    var xs := ParseColumn(chunks, 0, parse);
    var ys := ParseColumn(chunks, 1, parse);
    if xs.Err? then Err(xs.error)
    else if ys.Err? then Err(ys.error)
    else Ok((xs.value, ys.value))
  }

  /** The extra parameter `int(entry or default)`: the default when the
      entry is empty, otherwise the entry parsed as an integer. */
  function ExtraParameter(entry: string, default: int, parseInt: string -> Option<int>): (r: Result<int, FitError>)
    ensures entry == "" ==> r == Ok(default)
    ensures entry != "" ==> (r.Ok? <==> parseInt(entry).Some?)
    ensures entry != "" && r.Ok? ==> r.value == parseInt(entry).value
  {
    if entry == "" then Ok(default)
    else
      match parseInt(entry)
      case None => Err(BadNumber)
      case Some(v) => Ok(v)
  }

  // ---------------------------------------------------------------------
  // Design matrices

  /** Rows [1, x]. */
  function LinearDesign(X: seq<real>): (A: Matrix)
    ensures |A| == |X| && Rectangular(A, 2)
  {
    seq(|X|, i requires 0 <= i < |X| => [1.0, X[i]])
  }

  /** Increasing-power Vandermonde matrix: A[i][j] = X[i]^j for j < m. */
  function Vandermonde(X: seq<real>, m: nat): (A: Matrix)
    ensures |A| == |X| && Rectangular(A, m)
  {
    seq(|X|, i requires 0 <= i < |X| => Powers(X[i], m))
  }

  /** 1, x, x², ..., x^(m-1). */
  function Powers(x: real, m: nat): (p: seq<real>)
    ensures |p| == m && forall j :: 0 <= j < m ==> p[j] == Pow(x, j)
  {
    seq(m, j requires 0 <= j < m => Pow(x, j))
  }

  /** The linear model is the Vandermonde matrix of degree 1. */
  lemma LinearIsVandermonde(X: seq<real>)
    ensures LinearDesign(X) == Vandermonde(X, 2)
  {
    forall i | 0 <= i < |X|
      ensures LinearDesign(X)[i] == Vandermonde(X, 2)[i]
    {
      var row := Vandermonde(X, 2)[i];
      assert row[0] == 1.0 && row[1] == X[i];
    }
  }

  /** Number of columns of the polynomial model: degree + 1, the degree
      defaulting to 2. */
  function PolynomialColumns(entry: string, parseInt: string -> Option<int>): (r: Result<nat, FitError>)
    ensures entry == "" ==> r == Ok(3)
    ensures r.Err? <==> ExtraParameter(entry, 2, parseInt).Err? || ExtraParameter(entry, 2, parseInt).value < -1
    ensures r.Ok? ==> r.value == ExtraParameter(entry, 2, parseInt).value + 1
  {
    match ExtraParameter(entry, 2, parseInt)
    case Err(e) => Err(e)
    case Ok(degree) => if degree + 1 < 0 then Err(NegativeColumnCount) else Ok(degree + 1)
  }

  /** The Fourier matrix has 1 + 2·terms columns; a negative count of terms
      adds none. */
  function FourierColumns(terms: int): nat
  {
    if terms <= 0 then 1 else 1 + 2 * terms
  }

  /** g(k·x): one harmonic. */
  function Harmonic(g: real -> real, k: int, x: real): real
  {
    g(k as real * x)
  }

  /** Column j of the Fourier matrix at x: 1 for j = 0, cos(k·x) for
      j = 2k - 1 and sin(k·x) for j = 2k. */
  function FourierEntry(cos: real -> real, sin: real -> real, x: real, j: nat): real
  {
    if j == 0 then 1.0
    else if j % 2 == 1 then Harmonic(cos, (j + 1) / 2, x)
    else Harmonic(sin, j / 2, x)
  }

  function FourierRow(cos: real -> real, sin: real -> real, x: real, m: nat): (row: seq<real>)
    ensures |row| == m && forall j :: 0 <= j < m ==> row[j] == FourierEntry(cos, sin, x, j)
  {
    seq(m, j requires 0 <= j < m => FourierEntry(cos, sin, x, j))
  }

  /** Cosine column 2k - 1 and sine column 2k carry harmonic k. */
  lemma HarmonicColumns(cos: real -> real, sin: real -> real, x: real, k: nat)
    requires k >= 1
    ensures FourierEntry(cos, sin, x, 2 * k - 1) == Harmonic(cos, k, x)
    ensures FourierEntry(cos, sin, x, 2 * k) == Harmonic(sin, k, x)
  {
    assert (2 * k - 1) % 2 == 1 && (2 * k - 1 + 1) / 2 == k;
    assert (2 * k) % 2 == 0 && (2 * k) / 2 == k;
  }

  function FourierDesign(cos: real -> real, sin: real -> real, X: seq<real>, terms: int): (A: Matrix)
    ensures |A| == |X| && Rectangular(A, FourierColumns(terms))
  {
    seq(|X|, i requires 0 <= i < |X| => FourierRow(cos, sin, X[i], FourierColumns(terms)))
  }

  /** The columns come in the order 1, cos(1x), sin(1x), ..., cos(mx), sin(mx). */
  lemma FourierColumnOrder(cos: real -> real, sin: real -> real, X: seq<real>, terms: int, i: nat, k: nat)
    requires i < |X| && 1 <= k <= terms
    ensures FourierDesign(cos, sin, X, terms)[i][0] == 1.0
    ensures FourierDesign(cos, sin, X, terms)[i][2 * k - 1] == cos(k as real * X[i])
    ensures FourierDesign(cos, sin, X, terms)[i][2 * k] == sin(k as real * X[i])
  {
    HarmonicColumns(cos, sin, X[i], k);
  }

  /** `column_stack`: row i takes entry i of every column. */
  function ColumnStack(cols: seq<seq<real>>, n: nat): (A: Matrix)
    requires forall j :: 0 <= j < |cols| ==> |cols[j]| == n
    ensures |A| == n && Rectangular(A, |cols|)
  {
    seq(n, i requires 0 <= i < n => seq(|cols|, j requires 0 <= j < |cols| => cols[j][i]))
  }

  /** The column-building loop of the Fourier model: a column of ones, then
      for k = 1..terms the columns cos(k·X) and sin(k·X). */
  method BuildFourierDesign(cos: real -> real, sin: real -> real, X: seq<real>, terms: int) returns (A: Matrix)
    ensures A == FourierDesign(cos, sin, X, terms)
  {
    var cols: seq<seq<real>> := [seq(|X|, i => 1.0)];
    var k := 1;
    while k <= terms
      invariant 1 <= k && (terms >= 1 ==> k <= terms + 1) && (terms < 1 ==> k == 1)
      invariant |cols| == 2 * k - 1
      invariant forall j :: 0 <= j < |cols| ==> |cols[j]| == |X|
      invariant forall j, i :: 0 <= j < |cols| && 0 <= i < |X| ==> cols[j][i] == FourierEntry(cos, sin, X[i], j)
    {
      forall i | 0 <= i < |X| {
        HarmonicColumns(cos, sin, X[i], k);
      }
      cols := cols + [seq(|X|, i requires 0 <= i < |X| => Harmonic(cos, k, X[i])),
                      seq(|X|, i requires 0 <= i < |X| => Harmonic(sin, k, X[i]))];
      k := k + 1;
    }
    A := ColumnStack(cols, |X|);
    ghost var F := FourierDesign(cos, sin, X, terms);
    assert |cols| == FourierColumns(terms);
    forall i | 0 <= i < |X|
      ensures A[i] == F[i]
    {
      forall j | 0 <= j < |cols|
        ensures A[i][j] == F[i][j]
      {
        assert A[i][j] == cols[j][i];
      }
    }
  }

  // ---------------------------------------------------------------------
  // Normal equations

  /** Aᵗ for an n×m matrix A. */
  function Transpose(A: Matrix, m: nat): (T: Matrix)
    requires Rectangular(A, m)
    ensures |T| == m && Rectangular(T, |A|)
    ensures forall j, i :: 0 <= j < m && 0 <= i < |A| ==> T[j][i] == A[i][j]
  {
    seq(m, j requires 0 <= j < m => seq(|A|, i requires 0 <= i < |A| => A[i][j]))
  }

  /** M is square and equal to its transpose. */
  predicate Symmetric(M: Matrix)
  {
    Rectangular(M, |M|) && forall j, k :: 0 <= j < |M| && 0 <= k < |M| ==> M[j][k] == M[k][j]
  }

  /** AᵗA: one row and one column per design column; it is symmetric. */
  function Gram(A: Matrix, m: nat): (G: Matrix)
    requires Rectangular(A, m)
    ensures |G| == m && Symmetric(G)
  {
    var T := Transpose(A, m);
    var G := seq(m, j requires 0 <= j < m => seq(m, k requires 0 <= k < m => Dot(T[j], T[k], 0, |A|)));
    assert forall j, k :: 0 <= j < m && 0 <= k < m ==> G[j][k] == G[k][j] by {
      forall j, k | 0 <= j < m && 0 <= k < m
        ensures G[j][k] == G[k][j]
      {
        DotSymmetric(T[j], T[k], |A|);
      }
    }
    G
  }

  /** Aᵗy: one entry per design column. */
  function AtY(A: Matrix, m: nat, y: seq<real>): (v: seq<real>)
    requires Rectangular(A, m) && |y| == |A|
    ensures |v| == m
  {
    var T := Transpose(A, m);
    seq(m, j requires 0 <= j < m => Dot(T[j], y, 0, |A|))
  }

  /** A·c. */
  function MatVec(A: Matrix, c: seq<real>): (v: seq<real>)
    requires Rectangular(A, |c|)
    ensures |v| == |A|
  {
    seq(|A|, i requires 0 <= i < |A| => Dot(A[i], c, 0, |c|))
  }

  lemma {:induction false} DotSymmetric(u: seq<real>, v: seq<real>, hi: nat)
    requires hi <= |u| && hi <= |v|
    ensures Dot(u, v, 0, hi) == Dot(v, u, 0, hi)
  {
    if hi > 0 {
      DotSymmetric(u, v, hi - 1);
    }
  }

  /** Σ_{i<h} A[i][j]·A[i][k]: entry (j, k) of AᵗA over the first h rows. */
  function GramEntry(A: Matrix, m: nat, j: nat, k: nat, h: nat): real
    requires Rectangular(A, m) && j < m && k < m && h <= |A|
  {
    if h == 0 then 0.0 else GramEntry(A, m, j, k, h - 1) + A[h - 1][j] * A[h - 1][k]
  }

  /** Row j of AᵗA over the first h rows. */
  function PartialGramRow(A: Matrix, m: nat, j: nat, h: nat): (row: seq<real>)
    requires Rectangular(A, m) && j < m && h <= |A|
    ensures |row| == m && forall k :: 0 <= k < m ==> row[k] == GramEntry(A, m, j, k, h)
  {
    seq(m, k requires 0 <= k < m => GramEntry(A, m, j, k, h))
  }

  /** Over all rows the entry is the dot product of columns j and k. */
  lemma {:induction false} GramEntryIsDot(A: Matrix, m: nat, j: nat, k: nat, h: nat)
    requires Rectangular(A, m) && j < m && k < m && h <= |A|
    ensures GramEntry(A, m, j, k, h) == Dot(Transpose(A, m)[j], Transpose(A, m)[k], 0, h)
  {
    if h > 0 {
      GramEntryIsDot(A, m, j, k, h - 1);
    }
  }

  /** Σ_i A[i][j]·(A·c)_i = Σ_k (AᵗA)[j][k]·c_k, over the first h rows. */
  lemma {:induction false} ColumnTimesFitted(A: Matrix, m: nat, c: seq<real>, j: nat, h: nat)
    requires Rectangular(A, m) && |c| == m && j < m && h <= |A|
    ensures Dot(Transpose(A, m)[j], MatVec(A, c), 0, h) == Dot(PartialGramRow(A, m, j, h), c, 0, m)
  {
    if h == 0 {
      ZeroRowDot(PartialGramRow(A, m, j, 0), c, m);
    } else {
      var column, e := Transpose(A, m)[j], MatVec(A, c);
      assert |column| == |A| && |e| == |A|;
      var t := column[h - 1] * e[h - 1];
      assert t == A[h - 1][j] * Dot(A[h - 1], c, 0, m);
      assert Dot(column, e, 0, h) == Dot(column, e, 0, h - 1) + t;
      ColumnTimesFitted(A, m, c, j, h - 1);
      GramRowStep(A, m, j, h);
      DotAddStep(PartialGramRow(A, m, j, h), PartialGramRow(A, m, j, h - 1), A[h - 1], A[h - 1][j], c, m, t);
    }
  }

  /** u is v plus s times w, entry by entry, below hi. */
  predicate RowAdded(u: seq<real>, v: seq<real>, w: seq<real>, s: real, hi: nat)
    requires hi <= |u| && hi <= |v| && hi <= |w|
  {
    forall k :: 0 <= k < hi ==> u[k] == v[k] + s * w[k]
  }

  /** Adding row h - 1 to the partial Gram row adds A[h-1][j]·A[h-1][k] to
      entry k. */
  lemma GramRowStep(A: Matrix, m: nat, j: nat, h: nat)
    requires Rectangular(A, m) && j < m && 1 <= h <= |A|
    ensures RowAdded(PartialGramRow(A, m, j, h), PartialGramRow(A, m, j, h - 1), A[h - 1], A[h - 1][j], m)
  {
  }

  /** Σ_k (v_k + s·w_k)·c_k = Σ_k v_k·c_k + s·Σ_k w_k·c_k. */
  lemma {:induction false} DotAddRow(u: seq<real>, v: seq<real>, w: seq<real>, s: real, c: seq<real>, hi: nat)
    requires hi <= |u| && hi <= |v| && hi <= |w| && hi <= |c|
    requires RowAdded(u, v, w, s, hi)
    ensures Dot(u, c, 0, hi) == Dot(v, c, 0, hi) + s * Dot(w, c, 0, hi)
  {
    if hi > 0 {
      DotAddRow(u, v, w, s, c, hi - 1);
      assert u[hi - 1] * c[hi - 1] == v[hi - 1] * c[hi - 1] + s * (w[hi - 1] * c[hi - 1]);
    }
  }

  /** DotAddRow with the added product named. */
  lemma DotAddStep(u: seq<real>, v: seq<real>, w: seq<real>, s: real, c: seq<real>, hi: nat, step: real)
    requires hi <= |u| && hi <= |v| && hi <= |w| && hi <= |c|
    requires RowAdded(u, v, w, s, hi) && step == s * Dot(w, c, 0, hi)
    ensures Dot(u, c, 0, hi) == Dot(v, c, 0, hi) + step
  {
    DotAddRow(u, v, w, s, c, hi);
  }

  lemma {:induction false} ZeroRowDot(u: seq<real>, c: seq<real>, hi: nat)
    requires hi <= |u| && hi <= |c| && forall k :: 0 <= k < hi ==> u[k] == 0.0
    ensures Dot(u, c, 0, hi) == 0.0
  {
    if hi > 0 {
      ZeroRowDot(u, c, hi - 1);
    }
  }

  /** y - e. */
  function Residual(y: seq<real>, e: seq<real>): (r: seq<real>)
    requires |y| == |e|
    ensures |r| == |y|
  {
    seq(|y|, i requires 0 <= i < |y| => y[i] - e[i])
  }

  /** When c solves the normal equations (AᵗA)·c = Aᵗy, the residual
      y - A·c is orthogonal to every column of A. */
  lemma NormalEquationsOrthogonal(A: Matrix, m: nat, y: seq<real>, c: seq<real>)
    requires Rectangular(A, m) && |y| == |A| && |c| == m
    requires MatVec(Gram(A, m), c) == AtY(A, m, y)
    ensures forall j :: 0 <= j < m ==>
      Dot(Transpose(A, m)[j], Residual(y, MatVec(A, c)), 0, |A|) == 0.0
  {
    forall j | 0 <= j < m
      ensures Dot(Transpose(A, m)[j], Residual(y, MatVec(A, c)), 0, |A|) == 0.0
    {
      ColumnOrthogonal(A, m, y, c, j);
    }
  }

  lemma ColumnOrthogonal(A: Matrix, m: nat, y: seq<real>, c: seq<real>, j: nat)
    requires Rectangular(A, m) && |y| == |A| && |c| == m && j < m
    requires Dot(Gram(A, m)[j], c, 0, m) == AtY(A, m, y)[j]
    ensures Dot(Transpose(A, m)[j], Residual(y, MatVec(A, c)), 0, |A|) == 0.0
  {
    var T := Transpose(A, m);
    var e := MatVec(A, c);
    var r := Residual(y, e);
    ColumnTimesFitted(A, m, c, j, |A|);
    forall k | 0 <= k < m
      ensures PartialGramRow(A, m, j, |A|)[k] == Gram(A, m)[j][k]
    {
      GramEntryIsDot(A, m, j, k, |A|);
    }
    assert PartialGramRow(A, m, j, |A|) == Gram(A, m)[j];
    DotSymmetric(T[j], r, |A|);
    DotSymmetric(T[j], y, |A|);
    DotSymmetric(T[j], e, |A|);
    DotLinear(r, y, e, 1.0, T[j], |A|);
  }

  // ---------------------------------------------------------------------
  // Fitted values and the squared residual

  /** p(x) = c_0 + x·(c_1 + x·(c_2 + ...)), Horner's form. */
  function Horner(c: seq<real>, x: real): real
  {
    if |c| == 0 then 0.0 else c[0] + x * Horner(c[1..], x)
  }

  lemma TimesAdd(x: real, d: real, t: real)
    ensures Times(x, d + t) == Times(x, d) + Times(x, t)
  {
  }

  /** Σ_{j<h} c_j·x^j = c_0 + x·Σ_{j<h-1} c_{j+1}·x^j. */
  lemma {:induction false} PowerSumShift(c: seq<real>, x: real, h: nat)
    requires 1 <= h <= |c|
    ensures Dot(Powers(x, |c|), c, 0, h)
      == c[0] + Times(x, Dot(Powers(x, |c| - 1), c[1..], 0, h - 1))
  {
    if h > 1 {
      PowerSumShift(c, x, h - 1);
      var p := Powers(x, |c|);
      var q := Powers(x, |c| - 1);
      var d := Dot(q, c[1..], 0, h - 1 - 1);
      var t := q[h - 1 - 1] * c[h - 1];
      assert c[h - 1] == c[1..][h - 1 - 1];
      assert Dot(q, c[1..], 0, h - 1) == d + t;
      assert p[h - 1] * c[h - 1] == Times(x, t) by {
        assert p[h - 1] == x * q[h - 1 - 1];
      }
      TimesAdd(x, d, t);
    }
  }

  /** The Vandermonde product evaluates the polynomial with coefficients c
      in increasing powers: (A·c)_i = Σ_j c_j·X_i^j = Horner(c, X_i). */
  lemma {:induction false} PowerSumIsHorner(c: seq<real>, x: real)
    ensures Dot(Powers(x, |c|), c, 0, |c|) == Horner(c, x)
    decreases |c|
  {
    if |c| > 0 {
      PowerSumShift(c, x, |c|);
      PowerSumIsHorner(c[1..], x);
      assert Horner(c, x) == c[0] + Times(x, Horner(c[1..], x));
    }
  }

  lemma PolynomialFitted(X: seq<real>, c: seq<real>, i: nat)
    requires i < |X|
    ensures MatVec(Vandermonde(X, |c|), c)[i] == Horner(c, X[i])
  {
    assert Vandermonde(X, |c|)[i] == Powers(X[i], |c|);
    PowerSumIsHorner(c, X[i]);
  }

  /** The Fourier evaluation loop: start from c_0 and, for k = 1..terms,
      add a_k·cos(k·x) + b_k·sin(k·x) with a_k = c_{2k-1} and b_k = c_{2k}. */
  method FourierFitted(cos: real -> real, sin: real -> real, X: seq<real>, terms: int, coeffs: seq<real>)
    returns (yest: seq<real>)
    requires |coeffs| == FourierColumns(terms)
    ensures yest == MatVec(FourierDesign(cos, sin, X, terms), coeffs)
  {
    ghost var A := FourierDesign(cos, sin, X, terms);
    yest := seq(|X|, i => coeffs[0]);
    var idx := 1;
    // range(1, terms + 1) is empty when terms < 1
    var harmonics := if terms < 1 then 0 else terms;
    for k := 1 to harmonics + 1
      invariant idx == 2 * k - 1 && idx <= |coeffs|
      invariant FittedUpTo(yest, A, coeffs, idx)
    {
      yest := AddHarmonic(cos, sin, X, terms, coeffs, k, idx, yest);
      idx := idx + 2;
    }
    FittedAll(yest, A, coeffs, idx);
  }

  /** One pass of the Fourier loop: add a_k·cos(k·x) + b_k·sin(k·x) to
      every value, which brings in the two columns of harmonic k. */
  method AddHarmonic(cos: real -> real, sin: real -> real, X: seq<real>, terms: int, coeffs: seq<real>, k: nat,
                     idx: nat, prev: seq<real>) returns (next: seq<real>)
    requires |coeffs| == FourierColumns(terms) && 1 <= k <= terms && idx == 2 * k - 1
    requires FittedUpTo(prev, FourierDesign(cos, sin, X, terms), coeffs, idx)
    ensures FittedUpTo(next, FourierDesign(cos, sin, X, terms), coeffs, idx + 2)
  {
    var ak := coeffs[idx];
    var bk := coeffs[idx + 1];
    next := seq(|X|, i requires 0 <= i < |X| => prev[i] + (ak * Harmonic(cos, k, X[i]) + bk * Harmonic(sin, k, X[i])));
    FourierStep(cos, sin, X, terms, coeffs, k, idx, prev, next);
  }

  /** Entry i of the values is the design row i against the first h
      coefficients. */
  ghost predicate FittedUpTo(yest: seq<real>, A: Matrix, c: seq<real>, h: nat)
    requires Rectangular(A, |c|) && h <= |c|
  {
    |yest| == |A| && forall i :: 0 <= i < |A| ==> yest[i] == Dot(A[i], c, 0, h)
  }

  /** One pass of the Fourier loop adds the two columns of harmonic k. */
  lemma FourierStep(cos: real -> real, sin: real -> real, X: seq<real>, terms: int, c: seq<real>, k: nat,
                    idx: nat, prev: seq<real>, next: seq<real>)
    requires |c| == FourierColumns(terms) && 1 <= k <= terms && idx == 2 * k - 1
    requires FittedUpTo(prev, FourierDesign(cos, sin, X, terms), c, idx)
    requires |next| == |X|
    requires forall i :: 0 <= i < |X| ==>
      next[i] == prev[i] + (c[idx] * Harmonic(cos, k, X[i]) + c[idx + 1] * Harmonic(sin, k, X[i]))
    ensures FittedUpTo(next, FourierDesign(cos, sin, X, terms), c, idx + 2)
  {
    var A := FourierDesign(cos, sin, X, terms);
    forall i | 0 <= i < |X|
      ensures next[i] == Dot(A[i], c, 0, idx + 2)
    {
      HarmonicColumns(cos, sin, X[i], k);
      assert A[i][2 * k - 1] == Harmonic(cos, k, X[i]) && A[i][2 * k] == Harmonic(sin, k, X[i]);
    }
  }

  /** Once every column is in, the values are the matrix-vector product. */
  lemma FittedAll(yest: seq<real>, A: Matrix, c: seq<real>, h: nat)
    requires Rectangular(A, |c|) && h == |c| && FittedUpTo(yest, A, c, h)
    ensures yest == MatVec(A, c)
  {
  }

  /** The exponential model y = a·e^(b·x) with a = e^(c_0) and b = c_1. */
  function ExponentialFitted(exp: real -> real, X: seq<real>, c0: real, c1: real): (e: seq<real>)
    ensures |e| == |X|
  {
    seq(|X|, i requires 0 <= i < |X| => exp(c0) * exp(c1 * X[i]))
  }

  /** Σ (Y_i - e_i)². */
  function SquaredError(Y: seq<real>, e: seq<real>): real
    requires |Y| == |e|
  {
    if |Y| == 0 then 0.0
    else SquaredError(Y[..|Y| - 1], e[..|e| - 1]) + (Y[|Y| - 1] - e[|e| - 1]) * (Y[|Y| - 1] - e[|e| - 1])
  }

  /** The squared residual is non-negative, and zero when the fitted values
      reproduce the data. */
  lemma {:induction false} SquaredErrorFacts(Y: seq<real>, e: seq<real>)
    requires |Y| == |e|
    ensures SquaredError(Y, e) >= 0.0
    ensures Y == e ==> SquaredError(Y, e) == 0.0
  {
    if |Y| > 0 {
      var n := |Y| - 1;
      SquaredErrorFacts(Y[..n], e[..n]);
      var d := Y[n] - e[n];
      assert d * d >= 0.0;
      if Y == e {
        assert Y[..n] == e[..n];
        assert d * d == 0.0 * 0.0;
      }
    }
  }

  // ---------------------------------------------------------------------
  // The whole fit

  /** What the fit reports: the data, the design matrix with its column
      count and the vector it is fitted against, AᵗA, Aᵗy, the
      coefficients, the fitted values and Σ(Y - fitted)². */
  datatype FitReport = FitReport(
    X: seq<real>, Y: seq<real>, design: Matrix, columns: nat, target: seq<real>,
    normal: Matrix, rhs: seq<real>, coeffs: seq<real>, fitted: seq<real>, sqError: real)

  /** The foreign solver returns a vector as long as the right-hand side. */
  ghost predicate SolverShape(solve: (Matrix, seq<real>) -> Option<seq<real>>)
  {
    forall M, v :: solve(M, v).Some? ==> |solve(M, v).value| == |v|
  }

  /** The design matrix, the vector it is fitted against and its column
      count, for a model and parsed data. */
  function Design(model: FitModel, X: seq<real>, Y: seq<real>, extra: string,
                  parseInt: string -> Option<int>, cos: real -> real, sin: real -> real, ln: real -> real)
    : (r: Result<(Matrix, seq<real>, nat), FitError>)
    requires |X| == |Y|
    ensures r.Ok? ==> |r.value.0| == |X| && |r.value.1| == |Y| && Rectangular(r.value.0, r.value.2)
    ensures model == Exponential ==> (r.Err? <==> exists i :: 0 <= i < |Y| && Y[i] <= 0.0)
    ensures model == Linear ==> r == Ok((LinearDesign(X), Y, 2))
    ensures model == Exponential && r.Ok? ==>
      r.value.0 == LinearDesign(X) && r.value.2 == 2
      && forall i :: 0 <= i < |Y| ==> r.value.1[i] == ln(Y[i])
    ensures model == Polynomial ==>
      (r.Err? <==> PolynomialColumns(extra, parseInt).Err?)
      && (r.Ok? ==> var m := PolynomialColumns(extra, parseInt).value; r.value == (Vandermonde(X, m), Y, m))
    ensures model == Fourier ==>
      (r.Err? <==> ExtraParameter(extra, 1, parseInt).Err?)
      && (r.Ok? ==> var terms := ExtraParameter(extra, 1, parseInt).value;
                    r.value == (FourierDesign(cos, sin, X, terms), Y, FourierColumns(terms)))
  {
    match model
    case Linear => Ok((LinearDesign(X), Y, 2))
    case Polynomial =>
      (match PolynomialColumns(extra, parseInt)
       case Err(e) => Err(e)
       case Ok(m) => Ok((Vandermonde(X, m), Y, m)))
    case Exponential =>
      if exists i :: 0 <= i < |Y| && Y[i] <= 0.0 then Err(NonPositiveY)
      else Ok((LinearDesign(X), seq(|Y|, i requires 0 <= i < |Y| => ln(Y[i])), 2))
    case Fourier =>
      (match ExtraParameter(extra, 1, parseInt)
       case Err(e) => Err(e)
       case Ok(terms) => Ok((FourierDesign(cos, sin, X, terms), Y, FourierColumns(terms))))
  }

  /** `calculate_mmq`: parse, build the design, form AᵗA and Aᵗy, solve,
      evaluate the model and measure Σ(Y - fitted)² against the original Y
      (for the exponential model too, not against ln Y). */
  function Fit(text: string, model: FitModel, extra: string,
               parseReal: string -> Option<real>, parseInt: string -> Option<int>,
               cos: real -> real, sin: real -> real, exp: real -> real, ln: real -> real,
               solve: (Matrix, seq<real>) -> Option<seq<real>>)
    : (r: Result<FitReport, FitError>)
    requires SolverShape(solve)
    ensures ParseData(text, parseReal).Err? ==> r == Err(ParseData(text, parseReal).error)
    ensures var pd := ParseData(text, parseReal);
      pd.Ok? ==>
        var d := Design(model, pd.value.0, pd.value.1, extra, parseInt, cos, sin, ln);
        && (d.Err? ==> r == Err(d.error))
        && (d.Ok? ==> (r.Ok? <==> solve(Gram(d.value.0, d.value.2), AtY(d.value.0, d.value.2, d.value.1)).Some?))
        && (d.Ok? && r.Err? ==> r.error == SingularSystem)
    ensures r.Ok? ==>
      && ParseData(text, parseReal) == Ok((r.value.X, r.value.Y))
      && Design(model, r.value.X, r.value.Y, extra, parseInt, cos, sin, ln)
         == Ok((r.value.design, r.value.target, r.value.columns))
      && r.value.normal == Gram(r.value.design, r.value.columns)
      && r.value.rhs == AtY(r.value.design, r.value.columns, r.value.target)
      && solve(r.value.normal, r.value.rhs) == Some(r.value.coeffs)
      && |r.value.coeffs| == r.value.columns
      && r.value.fitted == (if model == Exponential
                            then ExponentialFitted(exp, r.value.X, r.value.coeffs[0], r.value.coeffs[1])
                            else MatVec(r.value.design, r.value.coeffs))
      && r.value.sqError == SquaredError(r.value.Y, r.value.fitted)
      && r.value.sqError >= 0.0
      && Symmetric(r.value.normal)
  {
    match ParseData(text, parseReal)
    case Err(e) => Err(e)
    case Ok(data) =>
      var (X, Y) := data;
      match Design(model, X, Y, extra, parseInt, cos, sin, ln)
      case Err(e) => Err(e)
      case Ok(d) =>
        var (A, yvec, m) := d;
        var normal := Gram(A, m);
        var rhs := AtY(A, m, yvec);
        match solve(normal, rhs)
        case None => Err(SingularSystem)
        case Some(coeffs) =>
          var fitted :=
            if model == Exponential then ExponentialFitted(exp, X, coeffs[0], coeffs[1])
            else MatVec(A, coeffs);
          SquaredErrorFacts(Y, fitted);
          Ok(FitReport(X, Y, A, m, yvec, normal, rhs, coeffs, fitted, SquaredError(Y, fitted)))
  }
}

