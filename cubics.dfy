/** Cubic polynomials over the reals, seen from the centre of an interval,
    and the single panels of the quadrature rules applied to them: one
    trapezoid panel integrates a line exactly, one Simpson 1/3 or 3/8 panel
    and the symmetric Gauss-Legendre node sums integrate a cubic exactly. */
module Cubics {
  import opened Common

  /** The cubic c3·x³ + c2·x² + c1·x + c0. */
  datatype Cubic = Cubic(c3: real, c2: real, c1: real, c0: real)

  /** c0 + x·(c1 + x·(c2 + x·(c3 + x·0))) by Horner's rule. */
  function Horner(cs: seq<real>, x: real): real
  {
    if |cs| == 0 then 0.0 else cs[0] + x * Horner(cs[1..], x)
  }

  /** The coefficients from the constant up. */
  function Coefficients(p: Cubic): seq<real>
  {
    [p.c0, p.c1, p.c2, p.c3]
  }

  /** The value of p at x. */
  function Eval(p: Cubic, x: real): real
  {
    Horner(Coefficients(p), x)
  }

  /** Four coefficients by Horner's rule, power by power. */
  lemma HornerFour(cs: seq<real>, x: real)
    requires |cs| == 4
    ensures Horner(cs, x) == cs[3] * (x * x * x) + cs[2] * (x * x) + cs[1] * x + cs[0]
  {
    assert cs[1..][1..][1..][1..] == [];
    assert Horner(cs[1..][1..][1..], x) == cs[3];
    assert Horner(cs[1..][1..], x) == cs[2] + x * cs[3];
    assert Horner(cs[1..], x) == cs[1] + x * (cs[2] + x * cs[3]);
  }

  /** The value of p at x, power by power. */
  lemma EvalExpanded(p: Cubic, x: real)
    ensures Eval(p, x) == p.c3 * (x * x * x) + p.c2 * (x * x) + p.c1 * x + p.c0
  {
    HornerFour(Coefficients(p), x);
  }

  /** The antiderivative c3·x⁴/4 + c2·x³/3 + c1·x²/2 + c0·x. */
  function Antiderivative(p: Cubic, x: real): real
  {
    p.c3 / 4.0 * (x * x * x * x) + p.c2 / 3.0 * (x * x * x) + p.c1 / 2.0 * (x * x) + p.c0 * x
  }

  /** The exact integral of p over [a, b]. */
  function Integral(p: Cubic, a: real, b: real): real
  {
    Antiderivative(p, b) - Antiderivative(p, a)
  }

  /** The integral is the increment of any values taken by the
      antiderivative at the ends. */
  lemma IntegralFromEnds(p: Cubic, lo: real, hi: real, Flo: real, Fhi: real)
    requires Flo == Antiderivative(p, lo) && Fhi == Antiderivative(p, hi)
    ensures Integral(p, lo, hi) == Fhi - Flo
  {
  }

  /** A line: no cubic and no square term. */
  predicate IsLine(p: Cubic)
  {
    p.c3 == 0.0 && p.c2 == 0.0
  }

  // ---------------------------------------------------------------------
  // A cubic seen from the centre of an interval

  /** The cubic t ↦ p(m + H·t): p around the centre m, in units of the
      half-width H. */
  function Recentre(p: Cubic, m: real, H: real): Cubic
  {
    Cubic(p.c3 * (H * H * H),
          (3.0 * p.c3 * m + p.c2) * (H * H),
          (3.0 * p.c3 * (m * m) + 2.0 * p.c2 * m + p.c1) * H,
          Eval(p, m))
  }

  /** The constant and square coefficients of the recentred cubic. */
  lemma RecentreFields(p: Cubic, m: real, H: real, g: Cubic)
    requires g == Recentre(p, m, H)
    ensures g.c0 == Eval(p, m) && g.c2 == (3.0 * p.c3 * m + p.c2) * (H * H)
  {
  }

  /** A line recentred is a line. */
  lemma RecentreLine(p: Cubic, m: real, H: real, g: Cubic)
    requires IsLine(p) && g == Recentre(p, m, H)
    ensures IsLine(g)
  {
  }

  /** Recentring is a change of variables: g(t) = p(x) at x = m + H·t. */
  lemma RecentreEval(p: Cubic, m: real, H: real, t: real, x: real)
    requires x == m + H * t
    ensures Eval(Recentre(p, m, H), t) == Eval(p, x)
  {
    var u := H * t;
    EvalExpanded(Recentre(p, m, H), t);
    ExpandAround(p, m, u, x);
    assert u * u == (H * H) * (t * t);
    assert u * u * u == (H * H * H) * (t * t * t);
  }

  /** Taylor's formula for a cubic around m, at x = m + u. */
  lemma ExpandAround(p: Cubic, m: real, u: real, x: real)
    requires x == m + u
    ensures Eval(p, x) == Eval(p, m) + (3.0 * p.c3 * (m * m) + 2.0 * p.c2 * m + p.c1) * u
      + (3.0 * p.c3 * m + p.c2) * (u * u) + p.c3 * (u * u * u)
  {
    EvalExpanded(p, x);
    EvalExpanded(p, m);
    assert x * x == m * m + 2.0 * m * u + u * u;
    assert x * x * x == m * m * m + 3.0 * (m * m) * u + 3.0 * m * (u * u) + u * u * u;
  }

  /** The odd terms cancel between t and -t. */
  lemma EvenPart(g: Cubic, t: real)
    ensures Eval(g, t) + Eval(g, -t) == 2.0 * g.c0 + 2.0 * g.c2 * (t * t)
  {
    EvalExpanded(g, t);
    EvalExpanded(g, -t);
    assert (-t) * (-t) == t * t;
    assert (-t) * (-t) * (-t) == -(t * t * t);
  }

  /** Over [lo, hi] = [m - H, m + H] the odd terms integrate to 0:
      ∫ p = H·(2·p(m) + 2/3·(3·c3·m + c2)·H²), the constant and square
      coefficients of the recentred cubic. */
  lemma CentredIntegral(p: Cubic, m: real, H: real, lo: real, hi: real)
    requires lo == m - H && hi == m + H
    ensures Integral(p, lo, hi) == H * (2.0 * Eval(p, m) + 2.0 / 3.0 * ((3.0 * p.c3 * m + p.c2) * (H * H)))
  {
    CentredPowers(p, m, H, lo, hi);
    EvalExpanded(p, m);
    var byValue := 2.0 * Eval(p, m) + 2.0 / 3.0 * ((3.0 * p.c3 * m + p.c2) * (H * H));
    var byPowers := 2.0 * (p.c3 * (m * m * m) + p.c2 * (m * m) + p.c1 * m + p.c0) + 2.0 / 3.0 * ((3.0 * p.c3 * m + p.c2) * (H * H));
    assert H * byValue == H * byPowers;
  }

  /** The same with p(m) written power by power. */
  lemma CentredPowers(p: Cubic, m: real, H: real, lo: real, hi: real)
    requires lo == m - H && hi == m + H
    ensures Integral(p, lo, hi)
      == H * (2.0 * (p.c3 * (m * m * m) + p.c2 * (m * m) + p.c1 * m + p.c0) + 2.0 / 3.0 * ((3.0 * p.c3 * m + p.c2) * (H * H)))
  {
    PowerDifferences(m, H, lo, hi);
    IntegralByDifferences(p, lo, hi, 2.0 * H, 4.0 * m * H, 6.0 * (m * m) * H + 2.0 * (H * H * H),
                          8.0 * (m * m * m) * H + 8.0 * m * (H * H * H));
    CentredArithmetic(p.c3, p.c2, p.c1, p.c0, m, H);
  }

  /** The same for any g carrying the constant and square coefficients of
      p recentred at m: ∫ p = H·(2·g0 + 2/3·g2). */
  lemma IntegralByCoefficients(p: Cubic, m: real, H: real, lo: real, hi: real, g: Cubic)
    requires g.c0 == Eval(p, m) && g.c2 == (3.0 * p.c3 * m + p.c2) * (H * H)
    requires lo == m - H && hi == m + H
    ensures Integral(p, lo, hi) == H * (2.0 * g.c0 + 2.0 / 3.0 * g.c2)
  {
    CentredIntegral(p, m, H, lo, hi);
    var byCoefficients := 2.0 * g.c0 + 2.0 / 3.0 * g.c2;
    var byValue := 2.0 * Eval(p, m) + 2.0 / 3.0 * ((3.0 * p.c3 * m + p.c2) * (H * H));
    assert H * byCoefficients == H * byValue;
  }

  /** Over [m - H, m + H] the integral of p is H·(2·g0 + 2/3·g2) for g the
      cubic p recentred at m. */
  lemma RecentreIntegral(p: Cubic, m: real, H: real, lo: real, hi: real, g: Cubic)
    requires g == Recentre(p, m, H) && lo == m - H && hi == m + H
    ensures Integral(p, lo, hi) == Times(H, 2.0 * g.c0 + 2.0 / 3.0 * g.c2)
  {
    RecentreFields(p, m, H, g);
    IntegralByCoefficients(p, m, H, lo, hi, g);
  }

  /** The integral from the differences d_k = hi^k - lo^k. */
  lemma IntegralByDifferences(p: Cubic, lo: real, hi: real, d1: real, d2: real, d3: real, d4: real)
    requires d1 == hi - lo && d2 == hi * hi - lo * lo
    requires d3 == hi * hi * hi - lo * lo * lo && d4 == hi * hi * hi * hi - lo * lo * lo * lo
    ensures Integral(p, lo, hi) == p.c3 / 4.0 * d4 + p.c2 / 3.0 * d3 + p.c1 / 2.0 * d2 + p.c0 * d1
  {
  }

  /** The centred differences, collected by powers of H. */
  lemma CentredArithmetic(c3: real, c2: real, c1: real, c0: real, m: real, H: real)
    ensures c3 / 4.0 * (8.0 * (m * m * m) * H + 8.0 * m * (H * H * H)) + c2 / 3.0 * (6.0 * (m * m) * H + 2.0 * (H * H * H))
      + c1 / 2.0 * (4.0 * m * H) + c0 * (2.0 * H)
      == H * (2.0 * (c3 * (m * m * m) + c2 * (m * m) + c1 * m + c0) + 2.0 / 3.0 * ((3.0 * c3 * m + c2) * (H * H)))
  {
  }

  /** hi^k - lo^k for k = 2..4, with lo = m - H and hi = m + H. */
  lemma PowerDifferences(m: real, H: real, lo: real, hi: real)
    requires lo == m - H && hi == m + H
    ensures hi * hi - lo * lo == 4.0 * m * H
    ensures hi * hi * hi - lo * lo * lo == 6.0 * (m * m) * H + 2.0 * (H * H * H)
    ensures hi * hi * hi * hi - lo * lo * lo * lo == 8.0 * (m * m * m) * H + 8.0 * m * (H * H * H)
  {
    var s, d := hi * hi, lo * lo;
    assert s == m * m + 2.0 * m * H + H * H;
    assert d == m * m - 2.0 * m * H + H * H;
    assert hi * hi * hi == s * hi;
    assert lo * lo * lo == d * lo;
    assert hi * hi * hi * hi == s * s;
    assert lo * lo * lo * lo == d * d;
  }

  // ---------------------------------------------------------------------
  // Single panels

  /** The weighted samples of one Simpson 1/3 panel, before the factor h/3. */
  function SimpsonSum(p: Cubic, lo: real, mid: real, hi: real): real
  {
    Eval(p, lo) + 4.0 * Eval(p, mid) + Eval(p, hi)
  }

  /** The end samples p(m - H) + p(m + H) = 2·g0 + 2·g2 for p recentred
      at m. */
  lemma EndPair(p: Cubic, m: real, H: real, xl: real, xr: real)
    requires xl == m - H && xr == m + H
    ensures Eval(p, xl) + Eval(p, xr) == 2.0 * Recentre(p, m, H).c0 + 2.0 * Recentre(p, m, H).c2
  {
    RecentreEval(p, m, H, -1.0, xl);
    RecentreEval(p, m, H, 1.0, xr);
    EvenPart(Recentre(p, m, H), 1.0);
  }

  /** The samples a third of the way in, p(m - H/3) + p(m + H/3) =
      2·g0 + 2/9·g2. */
  lemma ThirdPair(p: Cubic, m: real, H: real, xl: real, xr: real)
    requires xl == m - H / 3.0 && xr == m + H / 3.0
    ensures Eval(p, xl) + Eval(p, xr) == 2.0 * Recentre(p, m, H).c0 + 2.0 / 9.0 * Recentre(p, m, H).c2
  {
    RecentreEval(p, m, H, -1.0 / 3.0, xl);
    RecentreEval(p, m, H, 1.0 / 3.0, xr);
    EvenPart(Recentre(p, m, H), 1.0 / 3.0);
  }

  /** The Simpson 1/3 sample sum of p over [mid - h, mid + h], through the
      cubic g recentred at mid: 6·g0 + 2·g2. */
  lemma SimpsonSamples(p: Cubic, lo: real, mid: real, hi: real, h: real)
    requires lo == mid - h && hi == mid + h
    ensures SimpsonSum(p, lo, mid, hi) == 6.0 * Recentre(p, mid, h).c0 + 2.0 * Recentre(p, mid, h).c2
  {
    EndPair(p, mid, h, lo, hi);
  }

  /** Both sides of one Simpson 1/3 panel through the recentred cubic g:
      the samples give 6·g0 + 2·g2 and the integral h·(2·g0 + 2/3·g2). */
  lemma SimpsonThroughRecentred(p: Cubic, lo: real, mid: real, hi: real, h: real) returns (g: Cubic)
    requires lo == mid - h && hi == mid + h
    ensures SimpsonSum(p, lo, mid, hi) == 6.0 * g.c0 + 2.0 * g.c2
    ensures Integral(p, lo, hi) == h * (2.0 * g.c0 + 2.0 / 3.0 * g.c2)
  {
    g := Recentre(p, mid, h);
    SimpsonSamples(p, lo, mid, hi, h);
    RecentreIntegral(p, mid, h, lo, hi, g);
  }

  /** h/3·(6·g0 + 2·g2) = h·(2·g0 + 2/3·g2). */
  lemma SimpsonArithmetic(h: real, v: real, g0: real, g2: real)
    requires v == 6.0 * g0 + 2.0 * g2
    ensures h / 3.0 * v == h * (2.0 * g0 + 2.0 / 3.0 * g2)
  {
  }

  /** One Simpson 1/3 panel [lo, hi] with midpoint mid and half-width h
      integrates a cubic exactly. */
  lemma SimpsonPanelExact(p: Cubic, lo: real, mid: real, hi: real, h: real)
    requires lo == mid - h && hi == mid + h
    ensures Times(h / 3.0, SimpsonSum(p, lo, mid, hi)) == Integral(p, lo, hi)
  {
    var g := SimpsonThroughRecentred(p, lo, mid, hi, h);
    SimpsonArithmetic(h, SimpsonSum(p, lo, mid, hi), g.c0, g.c2);
  }

  /** One trapezoid panel [lo, hi] of width h integrates a line exactly. */
  lemma TrapezoidPanelExact(p: Cubic, lo: real, hi: real, h: real)
    requires IsLine(p) && hi == lo + h
    ensures h / 2.0 * (Eval(p, lo) + Eval(p, hi)) == Integral(p, lo, hi)
  {
    var m, H := lo + h / 2.0, h / 2.0;
    var g := Recentre(p, m, H);
    RecentreFields(p, m, H, g);
    EndPair(p, m, H, lo, hi);
    assert g.c2 == 0.0;
    RecentreIntegral(p, m, H, lo, hi, g);
  }

  /** The weighted samples of one Simpson 3/8 panel, before the factor 3h/8. */
  function Simpson38PanelSum(p: Cubic, x0: real, x1: real, x2: real, x3: real): real
  {
    Eval(p, x0) + 3.0 * Eval(p, x1) + 3.0 * Eval(p, x2) + Eval(p, x3)
  }

  /** The Simpson 3/8 sample sum of p over x0..x3, through the cubic g
      recentred at m = x0 + 3h/2 with half-width H = 3h/2: 8·g0 + 8/3·g2. */
  lemma Simpson38Samples(p: Cubic, x0: real, x1: real, x2: real, x3: real, m: real, H: real)
    requires x0 == m - H && x1 == m - H / 3.0 && x2 == m + H / 3.0 && x3 == m + H
    ensures Simpson38PanelSum(p, x0, x1, x2, x3) == 8.0 * Recentre(p, m, H).c0 + 8.0 / 3.0 * Recentre(p, m, H).c2
  {
    EndPair(p, m, H, x0, x3);
    ThirdPair(p, m, H, x1, x2);
  }

  /** Both sides of one Simpson 3/8 panel x0..x3 centred at m with
      half-width H, through the recentred cubic g: the samples give
      8·g0 + 8/3·g2 and the integral H·(2·g0 + 2/3·g2). */
  lemma Simpson38ThroughRecentred(p: Cubic, x0: real, x1: real, x2: real, x3: real, m: real, H: real) returns (g: Cubic)
    requires x0 == m - H && x1 == m - H / 3.0 && x2 == m + H / 3.0 && x3 == m + H
    ensures Simpson38PanelSum(p, x0, x1, x2, x3) == 8.0 * g.c0 + 8.0 / 3.0 * g.c2
    ensures Integral(p, x0, x3) == H * (2.0 * g.c0 + 2.0 / 3.0 * g.c2)
  {
    g := Recentre(p, m, H);
    Simpson38Samples(p, x0, x1, x2, x3, m, H);
    RecentreIntegral(p, m, H, x0, x3, g);
  }

  /** 3h/8·(8·g0 + 8/3·g2) = H·(2·g0 + 2/3·g2) for H = 3h/2. */
  lemma Simpson38Arithmetic(h: real, H: real, v: real, g0: real, g2: real)
    requires H == 1.5 * h && v == 8.0 * g0 + 8.0 / 3.0 * g2
    ensures 3.0 * h / 8.0 * v == H * (2.0 * g0 + 2.0 / 3.0 * g2)
  {
  }

  /** One Simpson 3/8 panel x0, x1, x2, x3 with step h, centre m and
      half-width H = 3h/2 integrates a cubic exactly. */
  lemma Simpson38PanelExact(p: Cubic, x0: real, x1: real, x2: real, x3: real, h: real, m: real, H: real)
    requires x1 == x0 + h && x2 == x1 + h && x3 == x2 + h
    requires m == x0 + 1.5 * h && H == 1.5 * h
    ensures Times(3.0 * h / 8.0, Simpson38PanelSum(p, x0, x1, x2, x3)) == Integral(p, x0, x3)
  {
    var g := Simpson38ThroughRecentred(p, x0, x1, x2, x3, m, H);
    Simpson38Arithmetic(h, H, Simpson38PanelSum(p, x0, x1, x2, x3), g.c0, g.c2);
  }

  // ---------------------------------------------------------------------
  // Symmetric node sums over [-1, 1]

  /** Two nodes -r and r of equal weight w: the odd terms of g cancel and
      w·g(-r) + w·g(r) = 2·w·g0 + 2·g2·s with s = w·r². */
  lemma PairSum(g: Cubic, r: real, w: real, s: real, y0: real, y1: real)
    requires y0 == Eval(g, -r) && y1 == Eval(g, r) && s == w * (r * r)
    ensures w * y0 + w * y1 == 2.0 * (w * g.c0) + 2.0 * (g.c2 * s)
  {
    EvenPart(g, r);
    assert w * y0 + w * y1 == w * (2.0 * g.c0 + 2.0 * g.c2 * (r * r));
  }

  /** The same for a line: w·g(-r) + w·g(r) = 2·w·g0. */
  lemma LinePairSum(g: Cubic, r: real, w: real, y0: real, y1: real)
    requires IsLine(g) && y0 == Eval(g, -r) && y1 == Eval(g, r)
    ensures w * y0 + w * y1 == 2.0 * (w * g.c0)
  {
    EvenPart(g, r);
    assert y0 + y1 == 2.0 * g.c0;
  }

  /** Weights wo + wi = 1 and second moments so + si = 1/3 make
      2·(wo·g0) + 2·g2·so + 2·(wi·g0) + 2·g2·si the exact 2·g0 + 2/3·g2. */
  lemma FourPointCombine(g: Cubic, wo: real, wi: real, so: real, si: real)
    requires wo + wi == 1.0 && so + si == 1.0 / 3.0
    ensures 2.0 * (wo * g.c0) + 2.0 * (g.c2 * so) + (2.0 * (wi * g.c0) + 2.0 * (g.c2 * si))
      == 2.0 * g.c0 + 2.0 / 3.0 * g.c2
  {
    assert wo * g.c0 + wi * g.c0 == (wo + wi) * g.c0;
    assert g.c2 * so + g.c2 * si == g.c2 * (so + si);
  }

  /** The exact integral of the line p·x + q. */
  lemma LineIntegral(p: real, q: real, a: real, b: real)
    ensures Integral(Cubic(0.0, 0.0, p, q), a, b) == p * (b * b - a * a) / 2.0 + q * (b - a)
  {
  }

  /** For the line p·x + q recentred at m with half-width H, H·2·g0 is its
      exact integral over [m - H, m + H]. */
  lemma RecentredLineIntegral(p: real, q: real, m: real, H: real, a: real, b: real, g: Cubic)
    requires g == Recentre(Cubic(0.0, 0.0, p, q), m, H) && a == m - H && b == m + H
    ensures Times(H, 2.0 * g.c0) == p * (b * b - a * a) / 2.0 + q * (b - a)
  {
    RecentreLine(Cubic(0.0, 0.0, p, q), m, H, g);
    RecentreIntegral(Cubic(0.0, 0.0, p, q), m, H, a, b, g);
    LineIntegral(p, q, a, b);
    var byLine := 2.0 * g.c0;
    var byCoefficients := 2.0 * g.c0 + 2.0 / 3.0 * g.c2;
    assert H * byLine == H * byCoefficients;
  }

  /** Nodes -r, r with r² = 1/3 and weights 1, 1 sum a cubic g to its
      integral over [-1, 1], 2·g0 + 2/3·g2. */
  lemma TwoNodeCubic(g: Cubic, r: real, ys: seq<real>)
    requires r * r == 1.0 / 3.0
    requires |ys| == 2 && ys[0] == Eval(g, -r) && ys[1] == Eval(g, r)
    ensures 1.0 * ys[0] + 1.0 * ys[1] == 2.0 * g.c0 + 2.0 / 3.0 * g.c2
  {
    PairSum(g, r, 1.0, 1.0 / 3.0, ys[0], ys[1]);
  }

  /** Nodes -r, 0, r with r² = 3/5 and weights 5/9, 8/9, 5/9 sum a cubic g
      to 2·g0 + 2/3·g2. */
  lemma ThreeNodeCubic(g: Cubic, r: real, ys: seq<real>)
    requires r * r == 3.0 / 5.0
    requires |ys| == 3 && ys[0] == Eval(g, -r) && ys[1] == Eval(g, 0.0) && ys[2] == Eval(g, r)
    ensures 5.0 / 9.0 * ys[0] + 8.0 / 9.0 * ys[1] + 5.0 / 9.0 * ys[2] == 2.0 * g.c0 + 2.0 / 3.0 * g.c2
  {
    PairSum(g, r, 5.0 / 9.0, 1.0 / 3.0, ys[0], ys[2]);
  }

  /** Nodes -ro, -ri, ri, ro with weights wo, wi, wi, wo sum a cubic g to
      2·g0 + 2/3·g2 when the weights add up to 1 and the second moment
      wo·ro² + wi·ri² is 1/3. */
  lemma FourNodeCubic(g: Cubic, ro: real, ri: real, wo: real, wi: real, ys: seq<real>)
    requires wo + wi == 1.0 && Times(wo, ro * ro) + Times(wi, ri * ri) == 1.0 / 3.0
    requires |ys| == 4 && ys[0] == Eval(g, -ro) && ys[1] == Eval(g, -ri) && ys[2] == Eval(g, ri) && ys[3] == Eval(g, ro)
    ensures Times(wo, ys[0]) + Times(wi, ys[1]) + Times(wi, ys[2]) + Times(wo, ys[3]) == 2.0 * g.c0 + 2.0 / 3.0 * g.c2
  {
    PairSum(g, ro, wo, wo * (ro * ro), ys[0], ys[3]);
    PairSum(g, ri, wi, wi * (ri * ri), ys[1], ys[2]);
    FourPointCombine(g, wo, wi, wo * (ro * ro), wi * (ri * ri));
  }

  /** For a line g the same sums give 2·g0 whatever the node r. */
  lemma TwoNodeLine(g: Cubic, r: real, ys: seq<real>)
    requires IsLine(g) && |ys| == 2 && ys[0] == Eval(g, -r) && ys[1] == Eval(g, r)
    ensures 1.0 * ys[0] + 1.0 * ys[1] == 2.0 * g.c0
  {
    LinePairSum(g, r, 1.0, ys[0], ys[1]);
  }

  lemma ThreeNodeLine(g: Cubic, r: real, ys: seq<real>)
    requires IsLine(g) && |ys| == 3 && ys[0] == Eval(g, -r) && ys[1] == Eval(g, 0.0) && ys[2] == Eval(g, r)
    ensures 5.0 / 9.0 * ys[0] + 8.0 / 9.0 * ys[1] + 5.0 / 9.0 * ys[2] == 2.0 * g.c0
  {
    LinePairSum(g, r, 5.0 / 9.0, ys[0], ys[2]);
  }

  lemma FourNodeLine(g: Cubic, ro: real, ri: real, wo: real, wi: real, ys: seq<real>)
    requires IsLine(g) && wo + wi == 1.0
    requires |ys| == 4 && ys[0] == Eval(g, -ro) && ys[1] == Eval(g, -ri) && ys[2] == Eval(g, ri) && ys[3] == Eval(g, ro)
    ensures Times(wo, ys[0]) + Times(wi, ys[1]) + Times(wi, ys[2]) + Times(wo, ys[3]) == 2.0 * g.c0
  {
    LinePairSum(g, ro, wo, ys[0], ys[3]);
    LinePairSum(g, ri, wi, ys[1], ys[2]);
    assert wo * g.c0 + wi * g.c0 == (wo + wi) * g.c0;
  }
}
