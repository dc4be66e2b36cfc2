/** The degrees of exactness of the quadrature rules: the trapezoid rule
    integrates lines exactly, Simpson's 1/3 and 3/8 rules and every
    Gauss-Legendre table integrate cubics exactly, on any interval [a, b]
    and for every accepted number of intervals. */
module Exactness {
  import opened Common
  import opened Integration
  import opened Cubics

  // ---------------------------------------------------------------------
  // The grid

  /** Neighbouring grid points are one step apart. */
  lemma GridNeighbour(a: real, b: real, N: int, i: int)
    requires N > 0
    ensures GridPoint(a, b, N, i + 1) == GridPoint(a, b, N, i) + Step(a, b, N)
  {
    var h := Step(a, b, N);
    assert (i + 1) as real * h == i as real * h + h;
  }

  /** The antiderivative at every grid point. */
  function GridAntiderivative(p: Cubic, a: real, b: real, N: int): (F: seq<real>)
    requires N > 0
    ensures |F| == N + 1 && forall i :: 0 <= i <= N ==> F[i] == Antiderivative(p, GridPoint(a, b, N, i))
  {
    seq(N + 1, i => Antiderivative(p, GridPoint(a, b, N, i)))
  }

  /** Between the grid ends the antiderivative grows by the exact integral. */
  lemma GridEnds(p: Cubic, a: real, b: real, N: int)
    requires N > 0
    ensures GridAntiderivative(p, a, b, N)[N] - GridAntiderivative(p, a, b, N)[0] == Integral(p, a, b)
  {
    assert GridPoint(a, b, N, N) == b;
    assert GridPoint(a, b, N, 0) == a;
  }

  // ---------------------------------------------------------------------
  // The trapezoid rule, panel by panel

  /** Σ over the first K panels of y_{k-1} + y_k. */
  function TrapezoidPanels(ys: seq<real>, K: nat): real
    requires K < |ys|
  {
    if K == 0 then 0.0 else TrapezoidPanels(ys, K - 1) + (ys[K - 1] + ys[K])
  }

  /** The first K + 1 trapezoid weights count each panel end once and the
      open end y_K once more. */
  lemma {:induction false} TrapezoidByPanels(ys: seq<real>, K: nat)
    requires |ys| >= 2 && K <= |ys| - 1
    ensures Dot(TrapezoidWeights(|ys| - 1), ys, 0, K + 1)
      == TrapezoidPanels(ys, K) + (if K < |ys| - 1 then ys[K] else 0.0)
  {
    if K > 0 {
      TrapezoidByPanels(ys, K - 1);
    }
  }

  /** Panel k of the trapezoid rule gives F[k] - F[k - 1]. */
  predicate TrapezoidPanelFits(ys: seq<real>, F: seq<real>, h: real, k: nat)
  {
    1 <= k < |ys| && k < |F| && h / 2.0 * (ys[k - 1] + ys[k]) == F[k] - F[k - 1]
  }

  /** Panels that each fit add up to F[K] - F[0]. */
  lemma {:induction false} TrapezoidTelescope(ys: seq<real>, F: seq<real>, h: real, K: nat)
    requires K < |ys| && K < |F|
    requires forall k :: 1 <= k <= K ==> TrapezoidPanelFits(ys, F, h, k)
    ensures h / 2.0 * TrapezoidPanels(ys, K) == F[K] - F[0]
  {
    if K > 0 {
      TrapezoidTelescope(ys, F, h, K - 1);
      assert TrapezoidPanelFits(ys, F, h, K);
      var earlier, panel := TrapezoidPanels(ys, K - 1), ys[K - 1] + ys[K];
      assert h / 2.0 * (earlier + panel) == h / 2.0 * earlier + h / 2.0 * panel;
    }
  }

  /** A panel fits when its samples are values e0, e1 whose trapezoid sum
      is the increment I of F across the panel. */
  lemma TrapezoidFitValues(ys: seq<real>, F: seq<real>, h: real, k: nat, e0: real, e1: real, I: real)
    requires 1 <= k < |ys| && k < |F|
    requires ys[k - 1] == e0 && ys[k] == e1
    requires h / 2.0 * (e0 + e1) == I && I == F[k] - F[k - 1]
    ensures TrapezoidPanelFits(ys, F, h, k)
  {
  }

  /** On a line, every trapezoid panel of the grid fits the antiderivative. */
  lemma TrapezoidPanelOnGrid(f: real -> real, p: Cubic, a: real, b: real, N: int, k: nat)
    requires forall x :: f(x) == Eval(p, x)
    requires IsLine(p) && N > 0 && 1 <= k <= N
    ensures TrapezoidPanelFits(Samples(f, a, b, N), GridAntiderivative(p, a, b, N), Step(a, b, N), k)
  {
    var lo, hi := GridPoint(a, b, N, k - 1), GridPoint(a, b, N, k);
    GridNeighbour(a, b, N, k - 1);
    var h := Step(a, b, N);
    TrapezoidPanelExact(p, lo, hi, h);
    TrapezoidFitValues(Samples(f, a, b, N), GridAntiderivative(p, a, b, N), h, k, Eval(p, lo), Eval(p, hi), Integral(p, lo, hi));
  }

  /** The antiderivative on the grid of a line: every trapezoid panel of
      the samples fits it, and its ends differ by the exact integral. */
  lemma TrapezoidGrid(f: real -> real, p: Cubic, a: real, b: real, N: int) returns (F: seq<real>)
    requires forall x :: f(x) == Eval(p, x)
    requires IsLine(p) && N > 0
    ensures |F| == N + 1 && F[N] - F[0] == Integral(p, a, b)
    ensures forall k :: 1 <= k <= N ==> TrapezoidPanelFits(Samples(f, a, b, N), F, Step(a, b, N), k)
  {
    F := GridAntiderivative(p, a, b, N);
    forall k | 1 <= k <= N
      ensures TrapezoidPanelFits(Samples(f, a, b, N), F, Step(a, b, N), k)
    {
      TrapezoidPanelOnGrid(f, p, a, b, N, k);
    }
    GridEnds(p, a, b, N);
  }

  /** When every panel fits F, the trapezoid rule gives F[N] - F[0]. */
  lemma TrapezoidFromPanels(ys: seq<real>, F: seq<real>, h: real)
    requires |ys| >= 2 && |F| == |ys|
    requires forall k :: 1 <= k < |ys| ==> TrapezoidPanelFits(ys, F, h, k)
    ensures RuleValue(Trapezoid, ys, h) == F[|ys| - 1] - F[0]
  {
    TrapezoidTelescope(ys, F, h, |ys| - 1);
    TrapezoidIsWeighted(ys, h);
    TrapezoidByPanels(ys, |ys| - 1);
  }

  /** The trapezoid rule integrates every line exactly. */
  lemma TrapezoidLineExact(f: real -> real, a: real, b: real, N: int, p: Cubic)
    requires forall x :: f(x) == Eval(p, x)
    requires IsLine(p) && N > 0
    ensures NewtonCotes(f, a, b, N, Trapezoid) == Ok(Integral(p, a, b))
  {
    var F := TrapezoidGrid(f, p, a, b, N);
    TrapezoidFromPanels(Samples(f, a, b, N), F, Step(a, b, N));
  }

  // ---------------------------------------------------------------------
  // Simpson's 1/3 rule, panel by panel

  /** Σ over the first K panels of y_{2k-2} + 4·y_{2k-1} + y_{2k}. */
  function Simpson13Panels(ys: seq<real>, K: nat): real
    requires 2 * K < |ys|
  {
    if K == 0 then 0.0 else Simpson13Panels(ys, K - 1) + (ys[2 * K - 2] + 4.0 * ys[2 * K - 1] + ys[2 * K])
  }

  /** The Simpson 1/3 weights 1, 4, 2, ..., 4, 1 are the panel weights
      1, 4, 1 overlapping at the even points. */
  lemma {:induction false} Simpson13ByPanels(ys: seq<real>, K: nat)
    requires |ys| >= 2 && (|ys| - 1) % 2 == 0 && 2 * K <= |ys| - 1
    ensures Dot(Simpson13Weights(|ys| - 1), ys, 0, 2 * K + 1)
      == Simpson13Panels(ys, K) + (if 2 * K < |ys| - 1 then ys[2 * K] else 0.0)
  {
    if K > 0 {
      Simpson13ByPanels(ys, K - 1);
    }
  }

  /** Panel k of Simpson's 1/3 rule gives F[2k] - F[2k - 2]. */
  predicate Simpson13PanelFits(ys: seq<real>, F: seq<real>, h: real, k: nat)
  {
    1 <= k && 2 * k < |ys| && 2 * k < |F|
    && h / 3.0 * (ys[2 * k - 2] + 4.0 * ys[2 * k - 1] + ys[2 * k]) == F[2 * k] - F[2 * k - 2]
  }

  /** Panels that each fit add up to F[2K] - F[0]. */
  lemma {:induction false} Simpson13Telescope(ys: seq<real>, F: seq<real>, h: real, K: nat)
    requires 2 * K < |ys| && 2 * K < |F|
    requires forall k :: 1 <= k <= K ==> Simpson13PanelFits(ys, F, h, k)
    ensures h / 3.0 * Simpson13Panels(ys, K) == F[2 * K] - F[0]
  {
    if K > 0 {
      Simpson13Telescope(ys, F, h, K - 1);
      assert Simpson13PanelFits(ys, F, h, K);
      var earlier, panel := Simpson13Panels(ys, K - 1), ys[2 * K - 2] + 4.0 * ys[2 * K - 1] + ys[2 * K];
      assert h / 3.0 * (earlier + panel) == h / 3.0 * earlier + h / 3.0 * panel;
    }
  }

  /** A panel fits when its samples are values e0, e1, e2 whose weighted
      sum S, times h/3, is the increment I of F across the panel. */
  lemma Simpson13FitValues(ys: seq<real>, F: seq<real>, h: real, k: nat, e0: real, e1: real, e2: real, S: real, I: real)
    requires 1 <= k && 2 * k < |ys| && 2 * k < |F|
    requires ys[2 * k - 2] == e0 && ys[2 * k - 1] == e1 && ys[2 * k] == e2
    requires S == e0 + 4.0 * e1 + e2
    requires Times(h / 3.0, S) == I && I == F[2 * k] - F[2 * k - 2]
    ensures Simpson13PanelFits(ys, F, h, k)
  {
  }

  /** A Simpson 1/3 panel fits when its samples are those of a cubic at
      mid - h, mid, mid + h and F holds its antiderivative at the ends. */
  lemma Simpson13PanelOfCubic(ys: seq<real>, F: seq<real>, p: Cubic, k: nat, lo: real, mid: real, hi: real, h: real)
    requires 1 <= k && 2 * k < |ys| && 2 * k < |F|
    requires lo == mid - h && hi == mid + h
    requires ys[2 * k - 2] == Eval(p, lo) && ys[2 * k - 1] == Eval(p, mid) && ys[2 * k] == Eval(p, hi)
    requires F[2 * k - 2] == Antiderivative(p, lo) && F[2 * k] == Antiderivative(p, hi)
    ensures Simpson13PanelFits(ys, F, h, k)
  {
    IntegralFromEnds(p, lo, hi, F[2 * k - 2], F[2 * k]);
    SimpsonPanelExact(p, lo, mid, hi, h);
    Simpson13FitValues(ys, F, h, k, Eval(p, lo), Eval(p, mid), Eval(p, hi), SimpsonSum(p, lo, mid, hi), Integral(p, lo, hi));
  }

  /** On a cubic, every Simpson 1/3 panel of the grid fits the
      antiderivative. */
  lemma Simpson13PanelOnGrid(f: real -> real, p: Cubic, a: real, b: real, N: int, k: nat)
    requires forall x :: f(x) == Eval(p, x)
    requires N > 0 && 1 <= k && 2 * k <= N
    ensures Simpson13PanelFits(Samples(f, a, b, N), GridAntiderivative(p, a, b, N), Step(a, b, N), k)
  {
    GridNeighbour(a, b, N, 2 * k - 2);
    GridNeighbour(a, b, N, 2 * k - 1);
    Simpson13PanelOfCubic(Samples(f, a, b, N), GridAntiderivative(p, a, b, N), p, k,
                          GridPoint(a, b, N, 2 * k - 2), GridPoint(a, b, N, 2 * k - 1), GridPoint(a, b, N, 2 * k), Step(a, b, N));
  }

  /** The antiderivative on the grid of a cubic: every Simpson 1/3 panel of
      the samples fits it, and its ends differ by the exact integral. */
  lemma Simpson13Grid(f: real -> real, p: Cubic, a: real, b: real, N: int) returns (F: seq<real>)
    requires forall x :: f(x) == Eval(p, x)
    requires N > 0 && N % 2 == 0
    ensures |F| == N + 1 && F[N] - F[0] == Integral(p, a, b)
    ensures forall k :: 1 <= k <= N / 2 ==> Simpson13PanelFits(Samples(f, a, b, N), F, Step(a, b, N), k)
  {
    F := GridAntiderivative(p, a, b, N);
    forall k | 1 <= k <= N / 2
      ensures Simpson13PanelFits(Samples(f, a, b, N), F, Step(a, b, N), k)
    {
      Simpson13PanelOnGrid(f, p, a, b, N, k);
    }
    GridEnds(p, a, b, N);
  }

  /** When every panel fits F, Simpson's 1/3 rule gives F[N] - F[0]. */
  lemma Simpson13FromPanels(ys: seq<real>, F: seq<real>, h: real)
    requires |ys| >= 2 && (|ys| - 1) % 2 == 0 && |F| == |ys|
    requires forall k :: 1 <= k <= (|ys| - 1) / 2 ==> Simpson13PanelFits(ys, F, h, k)
    ensures RuleValue(Simpson13, ys, h) == F[|ys| - 1] - F[0]
  {
    var K := (|ys| - 1) / 2;
    Simpson13Telescope(ys, F, h, K);
    Simpson13IsWeighted(ys, h);
    Simpson13ByPanels(ys, K);
  }

  /** Simpson's 1/3 rule integrates every cubic exactly, for every even N. */
  lemma Simpson13CubicExact(f: real -> real, a: real, b: real, N: int, p: Cubic)
    requires forall x :: f(x) == Eval(p, x)
    requires N > 0 && N % 2 == 0
    ensures NewtonCotes(f, a, b, N, Simpson13) == Ok(Integral(p, a, b))
  {
    var F := Simpson13Grid(f, p, a, b, N);
    Simpson13FromPanels(Samples(f, a, b, N), F, Step(a, b, N));
  }

  // ---------------------------------------------------------------------
  // Simpson's 3/8 rule, panel by panel

  /** Σ over the first K panels of y_{3k-3} + 3·y_{3k-2} + 3·y_{3k-1} + y_{3k}. */
  function Simpson38Panels(ys: seq<real>, K: nat): real
    requires 3 * K < |ys|
  {
    if K == 0 then 0.0
    else Simpson38Panels(ys, K - 1) + (ys[3 * K - 3] + 3.0 * ys[3 * K - 2] + 3.0 * ys[3 * K - 1] + ys[3 * K])
  }

  /** The Simpson 3/8 weights 1, 3, 3, 2, ..., 3, 3, 1 are the panel weights
      1, 3, 3, 1 overlapping at the multiples of 3. */
  lemma {:induction false} Simpson38ByPanels(ys: seq<real>, K: nat)
    requires |ys| >= 2 && (|ys| - 1) % 3 == 0 && 3 * K <= |ys| - 1
    ensures Dot(Simpson38Weights(|ys| - 1), ys, 0, 3 * K + 1)
      == Simpson38Panels(ys, K) + (if 3 * K < |ys| - 1 then ys[3 * K] else 0.0)
  {
    if K > 0 {
      Simpson38ByPanels(ys, K - 1);
      var w := Simpson38Weights(|ys| - 1);
      assert Dot(w, ys, 0, 3 * K - 1) == Dot(w, ys, 0, 3 * K - 2) + w[3 * K - 2] * ys[3 * K - 2];
    }
  }

  /** Panel k of Simpson's 3/8 rule gives F[3k] - F[3k - 3]. */
  predicate Simpson38PanelFits(ys: seq<real>, F: seq<real>, h: real, k: nat)
  {
    1 <= k && 3 * k < |ys| && 3 * k < |F|
    && 3.0 * h / 8.0 * (ys[3 * k - 3] + 3.0 * ys[3 * k - 2] + 3.0 * ys[3 * k - 1] + ys[3 * k]) == F[3 * k] - F[3 * k - 3]
  }

  /** Panels that each fit add up to F[3K] - F[0]. */
  lemma {:induction false} Simpson38Telescope(ys: seq<real>, F: seq<real>, h: real, K: nat)
    requires 3 * K < |ys| && 3 * K < |F|
    requires forall k :: 1 <= k <= K ==> Simpson38PanelFits(ys, F, h, k)
    ensures 3.0 * h / 8.0 * Simpson38Panels(ys, K) == F[3 * K] - F[0]
  {
    if K > 0 {
      Simpson38Telescope(ys, F, h, K - 1);
      assert Simpson38PanelFits(ys, F, h, K);
      var earlier := Simpson38Panels(ys, K - 1);
      var panel := ys[3 * K - 3] + 3.0 * ys[3 * K - 2] + 3.0 * ys[3 * K - 1] + ys[3 * K];
      assert 3.0 * h / 8.0 * (earlier + panel) == 3.0 * h / 8.0 * earlier + 3.0 * h / 8.0 * panel;
    }
  }

  /** A panel fits when its samples are values e0..e3 whose weighted sum S,
      times 3h/8, is the increment I of F across the panel. */
  lemma Simpson38FitValues(ys: seq<real>, F: seq<real>, h: real, k: nat,
                           e0: real, e1: real, e2: real, e3: real, S: real, I: real)
    requires 1 <= k && 3 * k < |ys| && 3 * k < |F|
    requires ys[3 * k - 3] == e0 && ys[3 * k - 2] == e1 && ys[3 * k - 1] == e2 && ys[3 * k] == e3
    requires S == e0 + 3.0 * e1 + 3.0 * e2 + e3
    requires Times(3.0 * h / 8.0, S) == I && I == F[3 * k] - F[3 * k - 3]
    ensures Simpson38PanelFits(ys, F, h, k)
  {
  }

  /** A Simpson 3/8 panel fits when its samples are those of a cubic at
      x0 .. x3 = x0 + 3h and F holds its antiderivative at the ends. */
  lemma Simpson38PanelOfCubic(ys: seq<real>, F: seq<real>, p: Cubic, k: nat,
                              x0: real, x1: real, x2: real, x3: real, h: real)
    requires 1 <= k && 3 * k < |ys| && 3 * k < |F|
    requires x1 == x0 + h && x2 == x1 + h && x3 == x2 + h
    requires ys[3 * k - 3] == Eval(p, x0) && ys[3 * k - 2] == Eval(p, x1)
    requires ys[3 * k - 1] == Eval(p, x2) && ys[3 * k] == Eval(p, x3)
    requires F[3 * k - 3] == Antiderivative(p, x0) && F[3 * k] == Antiderivative(p, x3)
    ensures Simpson38PanelFits(ys, F, h, k)
  {
    IntegralFromEnds(p, x0, x3, F[3 * k - 3], F[3 * k]);
    Simpson38PanelExact(p, x0, x1, x2, x3, h, x0 + 1.5 * h, 1.5 * h);
    Simpson38FitValues(ys, F, h, k, Eval(p, x0), Eval(p, x1), Eval(p, x2), Eval(p, x3),
                       Cubics.Simpson38PanelSum(p, x0, x1, x2, x3), Integral(p, x0, x3));
  }

  /** On a cubic, every Simpson 3/8 panel of the grid fits the
      antiderivative. */
  lemma Simpson38PanelOnGrid(f: real -> real, p: Cubic, a: real, b: real, N: int, k: nat)
    requires forall x :: f(x) == Eval(p, x)
    requires N > 0 && 1 <= k && 3 * k <= N
    ensures Simpson38PanelFits(Samples(f, a, b, N), GridAntiderivative(p, a, b, N), Step(a, b, N), k)
  {
    GridNeighbour(a, b, N, 3 * k - 3);
    GridNeighbour(a, b, N, 3 * k - 2);
    GridNeighbour(a, b, N, 3 * k - 1);
    Simpson38PanelOfCubic(Samples(f, a, b, N), GridAntiderivative(p, a, b, N), p, k,
                          GridPoint(a, b, N, 3 * k - 3), GridPoint(a, b, N, 3 * k - 2), GridPoint(a, b, N, 3 * k - 1),
                          GridPoint(a, b, N, 3 * k), Step(a, b, N));
  }

  /** The antiderivative on the grid of a cubic: every Simpson 3/8 panel of
      the samples fits it, and its ends differ by the exact integral. */
  lemma Simpson38Grid(f: real -> real, p: Cubic, a: real, b: real, N: int) returns (F: seq<real>)
    requires forall x :: f(x) == Eval(p, x)
    requires N > 0 && N % 3 == 0
    ensures |F| == N + 1 && F[N] - F[0] == Integral(p, a, b)
    ensures forall k :: 1 <= k <= N / 3 ==> Simpson38PanelFits(Samples(f, a, b, N), F, Step(a, b, N), k)
  {
    F := GridAntiderivative(p, a, b, N);
    forall k | 1 <= k <= N / 3
      ensures Simpson38PanelFits(Samples(f, a, b, N), F, Step(a, b, N), k)
    {
      Simpson38PanelOnGrid(f, p, a, b, N, k);
    }
    GridEnds(p, a, b, N);
  }

  /** When every panel fits F, Simpson's 3/8 rule gives F[N] - F[0]. */
  lemma Simpson38FromPanels(ys: seq<real>, F: seq<real>, h: real)
    requires |ys| >= 2 && (|ys| - 1) % 3 == 0 && |F| == |ys|
    requires forall k :: 1 <= k <= (|ys| - 1) / 3 ==> Simpson38PanelFits(ys, F, h, k)
    ensures RuleValue(Simpson38, ys, h) == F[|ys| - 1] - F[0]
  {
    var K := (|ys| - 1) / 3;
    Simpson38Telescope(ys, F, h, K);
    Simpson38ByPanels(ys, K);
  }

  /** Simpson's 3/8 rule integrates every cubic exactly, for every N that is
      a multiple of 3. */
  lemma Simpson38CubicExact(f: real -> real, a: real, b: real, N: int, p: Cubic)
    requires forall x :: f(x) == Eval(p, x)
    requires N > 0 && N % 3 == 0
    ensures NewtonCotes(f, a, b, N, Simpson38) == Ok(Integral(p, a, b))
  {
    var F := Simpson38Grid(f, p, a, b, N);
    Simpson38FromPanels(Samples(f, a, b, N), F, Step(a, b, N));
  }

  // ---------------------------------------------------------------------
  // Gauss-Legendre

  /** The values ys of a cubic g at the nodes t. */
  predicate ValuesAt(ys: seq<real>, t: seq<real>, g: Cubic)
  {
    |ys| == |t| && forall i :: 0 <= i < |t| ==> ys[i] == Eval(g, t[i])
  }

  /** Weighted sums of two, three and four terms, spelled out. */
  lemma DotTwo(w0: real, w1: real, ys: seq<real>)
    requires |ys| == 2
    ensures Dot([w0, w1], ys, 0, 2) == w0 * ys[0] + w1 * ys[1]
  {
  }

  lemma DotThree(w0: real, w1: real, w2: real, ys: seq<real>)
    requires |ys| == 3
    ensures Dot([w0, w1, w2], ys, 0, 3) == w0 * ys[0] + w1 * ys[1] + w2 * ys[2]
  {
    assert Dot([w0, w1, w2], ys, 0, 2) == w0 * ys[0] + w1 * ys[1];
  }

  lemma DotFour(w0: real, w1: real, w2: real, w3: real, ys: seq<real>)
    requires |ys| == 4
    ensures Dot([w0, w1, w2, w3], ys, 0, 4) == Times(w0, ys[0]) + Times(w1, ys[1]) + Times(w2, ys[2]) + Times(w3, ys[3])
  {
    var w := [w0, w1, w2, w3];
    assert Dot(w, ys, 0, 2) == w0 * ys[0] + w1 * ys[1];
    assert Dot(w, ys, 0, 3) == w0 * ys[0] + w1 * ys[1] + w2 * ys[2];
  }

  /** The 4-point weights and squared nodes: w_o·t_o² + w_i·t_i² = 1/3. */
  lemma FourPointMoments(c: GaussConstants)
    requires ValidConstants(c)
    ensures Times((18.0 - c.sqrt30) / 36.0, c.outer * c.outer) + Times((18.0 + c.sqrt30) / 36.0, c.inner * c.inner) == 1.0 / 3.0
  {
    ValidConstantsFacts(c);
    var s, r := c.sqrt30, c.sqrt6over5;
    SqrtProduct(s, r);
    var wo, wi := (18.0 - s) / 36.0, (18.0 + s) / 36.0;
    var lo, hi := 3.0 / 7.0 - 2.0 / 7.0 * r, 3.0 / 7.0 + 2.0 / 7.0 * r;
    assert wo * hi + wi * lo == (108.0 / 7.0 - 4.0 / 7.0 * (s * r)) / 36.0;
  }

  /** The 2-point table sums a cubic g over [-1, 1] to 2·g0 + 2/3·g2. */
  lemma TwoPointCubicSum(c: GaussConstants, g: Cubic, ys: seq<real>)
    requires ValidConstants(c)
    requires ValuesAt(ys, [-c.invSqrt3, c.invSqrt3], g)
    ensures Dot([1.0, 1.0], ys, 0, 2) == 2.0 * g.c0 + 2.0 / 3.0 * g.c2
  {
    ValidConstantsFacts(c);
    assert ys[0] == Eval(g, -c.invSqrt3) && ys[1] == Eval(g, c.invSqrt3);
    DotTwo(1.0, 1.0, ys);
    TwoNodeCubic(g, c.invSqrt3, ys);
  }

  /** The 3-point table sums a cubic g over [-1, 1] to 2·g0 + 2/3·g2. */
  lemma ThreePointCubicSum(c: GaussConstants, g: Cubic, ys: seq<real>)
    requires ValidConstants(c)
    requires ValuesAt(ys, [-c.sqrt3over5, 0.0, c.sqrt3over5], g)
    ensures Dot([5.0 / 9.0, 8.0 / 9.0, 5.0 / 9.0], ys, 0, 3) == 2.0 * g.c0 + 2.0 / 3.0 * g.c2
  {
    ValidConstantsFacts(c);
    assert ys[0] == Eval(g, -c.sqrt3over5) && ys[1] == Eval(g, 0.0) && ys[2] == Eval(g, c.sqrt3over5);
    DotThree(5.0 / 9.0, 8.0 / 9.0, 5.0 / 9.0, ys);
    ThreeNodeCubic(g, c.sqrt3over5, ys);
  }

  /** The 4-point table sums a cubic g over [-1, 1] to 2·g0 + 2/3·g2. */
  lemma FourPointCubicSum(c: GaussConstants, g: Cubic, ys: seq<real>)
    requires ValidConstants(c)
    requires ValuesAt(ys, [-c.outer, -c.inner, c.inner, c.outer], g)
    ensures Dot([(18.0 - c.sqrt30) / 36.0, (18.0 + c.sqrt30) / 36.0, (18.0 + c.sqrt30) / 36.0, (18.0 - c.sqrt30) / 36.0], ys, 0, 4)
      == 2.0 * g.c0 + 2.0 / 3.0 * g.c2
  {
    FourPointMoments(c);
    assert ys[0] == Eval(g, -c.outer) && ys[1] == Eval(g, -c.inner);
    assert ys[2] == Eval(g, c.inner) && ys[3] == Eval(g, c.outer);
    DotFour((18.0 - c.sqrt30) / 36.0, (18.0 + c.sqrt30) / 36.0, (18.0 + c.sqrt30) / 36.0, (18.0 - c.sqrt30) / 36.0, ys);
    FourNodeCubic(g, c.outer, c.inner, (18.0 - c.sqrt30) / 36.0, (18.0 + c.sqrt30) / 36.0, ys);
  }

  /** Every Gauss-Legendre table sums a cubic g over [-1, 1] to its exact
      integral 2·g0 + 2/3·g2. */
  lemma TableCubicSum(n: int, c: GaussConstants, g: Cubic, ys: seq<real>)
    requires ValidConstants(c) && 2 <= n <= 4
    requires ValuesAt(ys, GaussTable(n, c).value.nodes, g)
    ensures Dot(GaussTable(n, c).value.weights, ys, 0, n) == 2.0 * g.c0 + 2.0 / 3.0 * g.c2
  {
    if n == 2 {
      TwoPointCubicSum(c, g, ys);
    } else if n == 3 {
      ThreePointCubicSum(c, g, ys);
    } else {
      FourPointCubicSum(c, g, ys);
    }
  }

  /** The same pairing for a line g gives 2·g0 whatever the node constants. */
  lemma TwoPointLineSum(c: GaussConstants, g: Cubic, ys: seq<real>)
    requires IsLine(g) && ValuesAt(ys, [-c.invSqrt3, c.invSqrt3], g)
    ensures Dot([1.0, 1.0], ys, 0, 2) == 2.0 * g.c0
  {
    assert ys[0] == Eval(g, -c.invSqrt3) && ys[1] == Eval(g, c.invSqrt3);
    DotTwo(1.0, 1.0, ys);
    TwoNodeLine(g, c.invSqrt3, ys);
  }

  lemma ThreePointLineSum(c: GaussConstants, g: Cubic, ys: seq<real>)
    requires IsLine(g) && ValuesAt(ys, [-c.sqrt3over5, 0.0, c.sqrt3over5], g)
    ensures Dot([5.0 / 9.0, 8.0 / 9.0, 5.0 / 9.0], ys, 0, 3) == 2.0 * g.c0
  {
    assert ys[0] == Eval(g, -c.sqrt3over5) && ys[1] == Eval(g, 0.0) && ys[2] == Eval(g, c.sqrt3over5);
    DotThree(5.0 / 9.0, 8.0 / 9.0, 5.0 / 9.0, ys);
    ThreeNodeLine(g, c.sqrt3over5, ys);
  }

  lemma FourPointLineSum(c: GaussConstants, g: Cubic, ys: seq<real>)
    requires IsLine(g) && ValuesAt(ys, [-c.outer, -c.inner, c.inner, c.outer], g)
    ensures Dot([(18.0 - c.sqrt30) / 36.0, (18.0 + c.sqrt30) / 36.0, (18.0 + c.sqrt30) / 36.0, (18.0 - c.sqrt30) / 36.0], ys, 0, 4)
      == 2.0 * g.c0
  {
    assert ys[0] == Eval(g, -c.outer) && ys[1] == Eval(g, -c.inner);
    assert ys[2] == Eval(g, c.inner) && ys[3] == Eval(g, c.outer);
    DotFour((18.0 - c.sqrt30) / 36.0, (18.0 + c.sqrt30) / 36.0, (18.0 + c.sqrt30) / 36.0, (18.0 - c.sqrt30) / 36.0, ys);
    FourNodeLine(g, c.outer, c.inner, (18.0 - c.sqrt30) / 36.0, (18.0 + c.sqrt30) / 36.0, ys);
  }

  /** Every Gauss-Legendre table sums a line g over [-1, 1] to 2·g0, whatever
      the node constants. */
  lemma TableLineSum(n: int, c: GaussConstants, g: Cubic, ys: seq<real>)
    requires IsLine(g) && 2 <= n <= 4
    requires ValuesAt(ys, GaussTable(n, c).value.nodes, g)
    ensures Dot(GaussTable(n, c).value.weights, ys, 0, n) == 2.0 * g.c0
  {
    if n == 2 {
      TwoPointLineSum(c, g, ys);
    } else if n == 3 {
      ThreePointLineSum(c, g, ys);
    } else {
      FourPointLineSum(c, g, ys);
    }
  }

  /** At the nodes t mapped onto [a, b], p takes the values of its cubic
      recentred at the midpoint (a + b)/2 with half-width (b - a)/2. */
  lemma MappedValuesAt(f: real -> real, a: real, b: real, t: seq<real>, p: Cubic)
    requires forall x :: f(x) == Eval(p, x)
    ensures ValuesAt(MappedValues(f, a, b, t), t, Recentre(p, (a + b) / 2.0, (b - a) / 2.0))
  {
    var ys := MappedValues(f, a, b, t);
    forall i | 0 <= i < |t|
      ensures ys[i] == Eval(Recentre(p, (a + b) / 2.0, (b - a) / 2.0), t[i])
    {
      MapNodeFacts(a, b, t[i]);
      RecentreEval(p, (a + b) / 2.0, (b - a) / 2.0, t[i], MapNode(a, b, t[i]));
    }
  }

  /** Values ys of p recentred on [a, b], taken at the nodes of a table, are
      summed by its weights to the integral of p divided by (b - a)/2. */
  lemma GaussRecentredSum(ys: seq<real>, a: real, b: real, n: int, c: GaussConstants, p: Cubic)
    requires ValidConstants(c) && 2 <= n <= 4
    requires ValuesAt(ys, GaussTable(n, c).value.nodes, Recentre(p, (a + b) / 2.0, (b - a) / 2.0))
    ensures Times((b - a) / 2.0, Dot(GaussTable(n, c).value.weights, ys, 0, n)) == Integral(p, a, b)
  {
    var g := Recentre(p, (a + b) / 2.0, (b - a) / 2.0);
    TableCubicSum(n, c, g, ys);
    RecentreIntegral(p, (a + b) / 2.0, (b - a) / 2.0, a, b, g);
  }

  /** The integral of a cubic is (b - a)/2 times the weighted sum of its
      values at the mapped nodes. */
  lemma GaussScaledSum(f: real -> real, a: real, b: real, n: int, c: GaussConstants, p: Cubic)
    requires forall x :: f(x) == Eval(p, x)
    requires ValidConstants(c) && 2 <= n <= 4
    ensures Times((b - a) / 2.0, Dot(GaussTable(n, c).value.weights, MappedValues(f, a, b, GaussTable(n, c).value.nodes), 0, n))
      == Integral(p, a, b)
  {
    MappedValuesAt(f, a, b, GaussTable(n, c).value.nodes, p);
    GaussRecentredSum(MappedValues(f, a, b, GaussTable(n, c).value.nodes), a, b, n, c, p);
  }

  /** The 2-, 3- and 4-point Gauss-Legendre rules integrate every cubic
      exactly on every interval [a, b]. */
  lemma GaussCubicExact(f: real -> real, a: real, b: real, n: int, c: GaussConstants, p: Cubic)
    requires forall x :: f(x) == Eval(p, x)
    requires ValidConstants(c) && 2 <= n <= 4
    ensures GaussLegendre(f, a, b, n, c).Ok?
    ensures GaussLegendre(f, a, b, n, c).value == Integral(p, a, b)
  {
    GaussScaledSum(f, a, b, n, c, p);
    GaussLegendreValue(f, a, b, n, c);
  }

  /** Values ys of the line p·x + q recentred on [a, b], taken at the nodes of
      a table, are summed by its weights to its exact integral divided by
      (b - a)/2, whatever the node constants. */
  lemma GaussLineSum(ys: seq<real>, a: real, b: real, n: int, c: GaussConstants, p: real, q: real)
    requires 2 <= n <= 4
    requires ValuesAt(ys, GaussTable(n, c).value.nodes, Recentre(Cubic(0.0, 0.0, p, q), (a + b) / 2.0, (b - a) / 2.0))
    ensures Times((b - a) / 2.0, Dot(GaussTable(n, c).value.weights, ys, 0, n)) == p * (b * b - a * a) / 2.0 + q * (b - a)
  {
    var line := Cubic(0.0, 0.0, p, q);
    var g := Recentre(line, (a + b) / 2.0, (b - a) / 2.0);
    RecentreLine(line, (a + b) / 2.0, (b - a) / 2.0, g);
    TableLineSum(n, c, g, ys);
    RecentredLineIntegral(p, q, (a + b) / 2.0, (b - a) / 2.0, a, b, g);
  }

  /** The exact integral of the line p·x + q is (b - a)/2 times the weighted
      sum of its values at the mapped nodes. */
  lemma GaussLineScaledSum(f: real -> real, a: real, b: real, n: int, c: GaussConstants, p: real, q: real)
    requires forall x :: f(x) == p * x + q
    requires 2 <= n <= 4
    ensures Times((b - a) / 2.0, Dot(GaussTable(n, c).value.weights, MappedValues(f, a, b, GaussTable(n, c).value.nodes), 0, n))
      == p * (b * b - a * a) / 2.0 + q * (b - a)
  {
    var line := Cubic(0.0, 0.0, p, q);
    forall x
      ensures f(x) == Eval(line, x)
    {
      EvalExpanded(line, x);
    }
    MappedValuesAt(f, a, b, GaussTable(n, c).value.nodes, line);
    GaussLineSum(MappedValues(f, a, b, GaussTable(n, c).value.nodes), a, b, n, c, p, q);
  }

  /** A line p·x + q is integrated exactly, p·(b² - a²)/2 + q·(b - a),
      whatever the node constants: only the symmetry of the tables and their
      weight sum are needed. */
  lemma GaussLinearExact(f: real -> real, a: real, b: real, n: int, c: GaussConstants, p: real, q: real)
    requires forall x :: f(x) == p * x + q
    requires 2 <= n <= 4
    ensures GaussLegendre(f, a, b, n, c).Ok?
    ensures GaussLegendre(f, a, b, n, c).value == p * (b * b - a * a) / 2.0 + q * (b - a)
  {
    GaussLineScaledSum(f, a, b, n, c, p, q);
    GaussLegendreValue(f, a, b, n, c);
  }

  /** The Gauss block reports a zero error on a cubic when it is given the
      exact integral. */
  lemma CalcGaussCubicError(f: real -> real, a: real, b: real, n: int, c: GaussConstants, p: Cubic)
    requires forall x :: f(x) == Eval(p, x)
    requires ValidConstants(c) && 2 <= n <= 4
    ensures CalcGauss(f, a, b, n, c, Integral(p, a, b)).Ok?
    ensures CalcGauss(f, a, b, n, c, Integral(p, a, b)).value.error == 0.0
  {
    GaussCubicExact(f, a, b, n, c, p);
  }
}
