/** The Lagrange interpolation front end: parsing the "x,y; x,y; ..." text
    into points, sorting them in place, extracting X and Y, printing the
    interpolating polynomial from its coefficient vector (highest power
    first) and evaluating it at an optional estimate point. The
    interpolation itself and the `.4f` number formatting are outside the
    model and enter as parameters. */
module Interpolation {
  import opened Common

  type Point = (real, real)

  datatype InterpolationError =
    | BadNumber        // a field or the estimate text does not parse
    | TooFewValues     // a chunk has fewer than two ','-fields
    | TooManyValues    // a chunk has more than two ','-fields

  // ---------------------------------------------------------------------
  // Parsing

  /** `x, y = map(float, chunk.split(','))`. The unpacking pulls values from
      the lazy map one at a time: it parses up to three fields (the third to
      find out that there are too many), so a field that does not parse is
      reported before a wrong field count. */
  function ParsePoint(chunk: string, parse: string -> Option<real>): (r: Result<Point, InterpolationError>)
    ensures r.Ok? <==> |Split(chunk, ',')| == 2 && parse(Split(chunk, ',')[0]).Some? && parse(Split(chunk, ',')[1]).Some?
    ensures r.Ok? ==> r.value == (parse(Split(chunk, ',')[0]).value, parse(Split(chunk, ',')[1]).value)
  {
    var fields := Split(chunk, ',');
    if parse(fields[0]).None? then Err(BadNumber)
    else if |fields| < 2 then Err(TooFewValues)
    else if parse(fields[1]).None? then Err(BadNumber)
    else if |fields| == 2 then Ok((parse(fields[0]).value, parse(fields[1]).value))
    else if parse(fields[2]).None? then Err(BadNumber)
    else Err(TooManyValues)
  }

  /** Every chunk before index k parses as a point. */
  predicate ChunksParse(chunks: seq<string>, k: nat, parse: string -> Option<real>)
    requires k <= |chunks|
  {
    forall i :: 0 <= i < k ==> ParsePoint(chunks[i], parse).Ok?
  }

  /** The points of chunks that all parse. */
  function PointsOf(chunks: seq<string>, parse: string -> Option<real>): (ps: seq<Point>)
    requires ChunksParse(chunks, |chunks|, parse)
    ensures |ps| == |chunks| && forall i :: 0 <= i < |chunks| ==> ps[i] == ParsePoint(chunks[i], parse).value
  {
    seq(|chunks|, i requires 0 <= i < |chunks| => ParsePoint(chunks[i], parse).value)
  }

  /** The append loop over the ';'-chunks: the first chunk that fails
      decides the error; otherwise point i comes from chunk i. */
  method ParsePoints(text: string, parse: string -> Option<real>) returns (r: Result<seq<Point>, InterpolationError>)
    ensures var chunks := Split(text, ';');
      && (r.Ok? <==> ChunksParse(chunks, |chunks|, parse))
      && (r.Ok? ==> r.value == PointsOf(chunks, parse))
      && (r.Err? ==>
            exists i :: 0 <= i < |chunks| && ChunksParse(chunks, i, parse) && ParsePoint(chunks[i], parse) == Err(r.error))
  {
    var chunks := Split(text, ';');
    var points: seq<Point> := [];
    var i := 0;
    while i < |chunks|
      invariant 0 <= i <= |chunks|
      invariant ChunksParse(chunks, i, parse)
      invariant |points| == i
      invariant forall k :: 0 <= k < i ==> points[k] == ParsePoint(chunks[k], parse).value
    {
      var p := ParsePoint(chunks[i], parse);
      if p.Err? {
        assert ParsePoint(chunks[i], parse) == Err(p.error);
        return Err(p.error);
      }
      points := points + [p.value];
      i := i + 1;
    }
    assert points == PointsOf(chunks, parse);
    return Ok(points);
  }

  // ---------------------------------------------------------------------
  // Sorting

  /** Python's tuple order: by x, then by y. */
  predicate LexLeq(p: Point, q: Point)
  {
    p.0 < q.0 || (p.0 == q.0 && p.1 <= q.1)
  }

  /** s[..hi] is in ascending order. */
  predicate SortedUpTo(s: seq<Point>, hi: nat)
    requires hi <= |s|
  {
    forall k, l :: 0 <= k < l < hi ==> LexLeq(s[k], s[l])
  }

  predicate Sorted(s: seq<Point>)
  {
    SortedUpTo(s, |s|)
  }

  /** While the element at j sinks into s[..hi]: every pair that does not
      involve position j is in order, and the sinking element is below
      everything after it. */
  predicate SinkInvariant(s: seq<Point>, j: nat, hi: nat)
    requires j < hi <= |s|
  {
    && (forall k, l :: 0 <= k < l < hi && k != j && l != j ==> LexLeq(s[k], s[l]))
    && (forall l :: j < l < hi ==> LexLeq(s[j], s[l]))
  }

  /** One swap of the sinking element with its left neighbour, when that
      neighbour is greater, keeps the invariant one place further left. */
  lemma SinkStep(s: seq<Point>, t: seq<Point>, j: nat, hi: nat)
    requires 0 < j < hi <= |s| && |t| == |s|
    requires SinkInvariant(s, j, hi) && !LexLeq(s[j - 1], s[j])
    requires t == s[j - 1 := s[j]][j := s[j - 1]]
    ensures SinkInvariant(t, j - 1, hi)
  {
  }

  /** The sinking element has stopped: s[..hi] is sorted. */
  lemma SinkDone(s: seq<Point>, j: nat, hi: nat)
    requires j < hi <= |s|
    requires SinkInvariant(s, j, hi)
    requires j == 0 || LexLeq(s[j - 1], s[j])
    ensures SortedUpTo(s, hi)
  {
  }

  /** `points.sort()`: insertion sort in place, by adjacent swaps. */
  method SortPoints(a: array<Point>)
    modifies a
    ensures Sorted(a[..])
    ensures multiset(a[..]) == multiset(old(a[..]))
  {
    if a.Length == 0 {
      return;
    }
    var i := 1;
    while i < a.Length
      invariant 1 <= i <= a.Length
      invariant SortedUpTo(a[..], i)
      invariant multiset(a[..]) == multiset(old(a[..]))
    {
      var j := i;
      while j > 0 && !LexLeq(a[j - 1], a[j])
        invariant 0 <= j <= i
        invariant SinkInvariant(a[..], j, i + 1)
        invariant multiset(a[..]) == multiset(old(a[..]))
      {
        ghost var before := a[..];
        a[j - 1], a[j] := a[j], a[j - 1];
        SinkStep(before, a[..], j, i + 1);
        j := j - 1;
      }
      SinkDone(a[..], j, i + 1);
      i := i + 1;
    }
  }

  /** X and Y of the sorted points. */
  function Xs(points: seq<Point>): (X: seq<real>)
    ensures |X| == |points| && forall i :: 0 <= i < |points| ==> X[i] == points[i].0
  {
    seq(|points|, i requires 0 <= i < |points| => points[i].0)
  }

  function Ys(points: seq<Point>): (Y: seq<real>)
    ensures |Y| == |points| && forall i :: 0 <= i < |points| ==> Y[i] == points[i].1
  {
    seq(|points|, i requires 0 <= i < |points| => points[i].1)
  }

  /** After sorting, the abscissae are non-decreasing, and every point is
      (X[i], Y[i]). */
  lemma SortedAbscissae(points: seq<Point>)
    requires Sorted(points)
    ensures forall i, k :: 0 <= i < k < |points| ==> Xs(points)[i] <= Xs(points)[k]
    ensures forall i :: 0 <= i < |points| ==> points[i] == (Xs(points)[i], Ys(points)[i])
  {
    forall i, k | 0 <= i < k < |points|
      ensures Xs(points)[i] <= Xs(points)[k]
    {
      assert LexLeq(points[i], points[k]);
    }
  }

  // ---------------------------------------------------------------------
  // The polynomial text

  /** Coefficients with |c| at or below this produce no term. */
  const Threshold: real := 0.0000000001

  /** The sign prefix of coefficient c at index i. */
  function SignPrefix(c: real, i: nat): string
  {
    if c >= 0.0 && i > 0 then "+ " else if c < 0.0 then "- " else ""
  }

  /** A negative coefficient always prints "- "; a non-negative one prints
      "+ " except at index 0, where it prints nothing. */
  lemma SignPrefixCases(c: real, i: nat)
    ensures SignPrefix(c, i) == "- " <==> c < 0.0
    ensures SignPrefix(c, i) == "+ " <==> c >= 0.0 && i > 0
    ensures SignPrefix(c, i) == "" <==> c >= 0.0 && i == 0
  {
    assert "- " != "+ " && "- " != "" && "+ " != "" by {
      assert "- "[0] != "+ "[0];
      assert |""| == 0;
    }
  }

  /** Decimal digit d. */
  function Digit(d: nat): (ch: char)
    requires d < 10
    ensures '0' <= ch <= '9' && ch as int - '0' as int == d
  {
    (d + '0' as int) as char
  }

  /** `str(n)` for a natural number. */
  function NatString(n: nat): (s: string)
    ensures |s| >= 1
  {
    if n < 10 then [Digit(n)] else NatString(n / 10) + [Digit(n % 10)]
  }

  /** The value of a string of decimal digits. */
  function DigitsValue(s: string): int
  {
    if |s| == 0 then 0 else DigitsValue(s[..|s| - 1]) * 10 + (s[|s| - 1] as int - '0' as int)
  }

  /** The printed power is all decimal digits, and reading it back gives
      the power. */
  lemma {:induction false} NatStringValue(n: nat)
    ensures forall k :: 0 <= k < |NatString(n)| ==> '0' <= NatString(n)[k] <= '9'
    ensures DigitsValue(NatString(n)) == n
  {
    if n >= 10 {
      NatStringValue(n / 10);
      var s := NatString(n);
      assert s[..|s| - 1] == NatString(n / 10);
    }
  }

  /** A term that is printed: coefficient index, sign prefix, magnitude
      and power of x. */
  datatype PrintedTerm = PrintedTerm(index: nat, sign: string, magnitude: real, power: nat)

  /** The terms printed for the first k coefficients, in order. */
  function PrintedUpTo(coeffs: seq<real>, k: nat): (ts: seq<PrintedTerm>)
    requires k <= |coeffs|
    ensures |ts| <= k
    ensures forall t :: t in ts ==> t.index < k
  {
    if k == 0 then []
    else
      var i := k - 1;
      var c := coeffs[i];
      if Abs(c) > Threshold then PrintedUpTo(coeffs, i) + [PrintedTerm(i, SignPrefix(c, i), Abs(c), |coeffs| - 1 - i)]
      else PrintedUpTo(coeffs, i)
  }

  function Printed(coeffs: seq<real>): seq<PrintedTerm>
  {
    PrintedUpTo(coeffs, |coeffs|)
  }

  /** The f-string of one term, "{sign}{|c|:.4f}*x^{power} ", with the
      magnitude formatted by `fmt`. */
  function TermText(sign: string, magnitude: real, power: nat, fmt: real -> string): string
  {
    sign + (fmt(magnitude) + ("*x^" + (NatString(power) + " ")))
  }

  function RenderTerm(t: PrintedTerm, fmt: real -> string): string
  {
    TermText(t.sign, t.magnitude, t.power, fmt)
  }

  function Render(ts: seq<PrintedTerm>, fmt: real -> string): string
  {
    if |ts| == 0 then "" else Render(ts[..|ts| - 1], fmt) + RenderTerm(ts[|ts| - 1], fmt)
  }

  /** The whole polynomial line. */
  function PolynomialText(coeffs: seq<real>, fmt: real -> string): string
  {
    Header() + Render(Printed(coeffs), fmt)
  }

  /** The fixed start of the polynomial line. */
  function Header(): string
  {
    "Pn(x) = "
  }

  /** Coefficient i adds its term text exactly when it is above the
      threshold. */
  lemma RenderStep(coeffs: seq<real>, i: nat, fmt: real -> string)
    requires i < |coeffs|
    ensures Abs(coeffs[i]) > Threshold ==>
      Render(PrintedUpTo(coeffs, i + 1), fmt) ==
      Render(PrintedUpTo(coeffs, i), fmt) + TermText(SignPrefix(coeffs[i], i), Abs(coeffs[i]), |coeffs| - 1 - i, fmt)
    ensures Abs(coeffs[i]) <= Threshold ==>
      Render(PrintedUpTo(coeffs, i + 1), fmt) == Render(PrintedUpTo(coeffs, i), fmt)
  {
    var prev := PrintedUpTo(coeffs, i);
    if Abs(coeffs[i]) > Threshold {
      var t := PrintedTerm(i, SignPrefix(coeffs[i], i), Abs(coeffs[i]), |coeffs| - 1 - i);
      var next := prev + [t];
      assert next[..|next| - 1] == prev;
    }
  }

  /** The text after coefficient i: the line for the first i coefficients,
      with the term of coefficient i appended exactly when it is above the
      threshold, is the line for the first i + 1. */
  lemma TextStep(coeffs: seq<real>, i: nat, fmt: real -> string, before: string, after: string)
    requires i < |coeffs|
    requires before == Header() + Render(PrintedUpTo(coeffs, i), fmt)
    requires Abs(coeffs[i]) > Threshold ==>
      after == before + TermText(SignPrefix(coeffs[i], i), Abs(coeffs[i]), |coeffs| - 1 - i, fmt)
    requires Abs(coeffs[i]) <= Threshold ==> after == before
    ensures after == Header() + Render(PrintedUpTo(coeffs, i + 1), fmt)
  {
    RenderStep(coeffs, i, fmt);
    if Abs(coeffs[i]) > Threshold {
      var rendered := Render(PrintedUpTo(coeffs, i), fmt);
      var piece := TermText(SignPrefix(coeffs[i], i), Abs(coeffs[i]), |coeffs| - 1 - i, fmt);
      AppendAssociates(Header(), rendered, piece);
    }
  }

  lemma AppendAssociates(a: string, b: string, c: string)
    ensures (a + b) + c == a + (b + c)
  {
  }

  /** The formatting loop over `enumerate(coeffs)`. */
  method FormatPolynomial(coeffs: seq<real>, fmt: real -> string) returns (text: string)
    ensures text == PolynomialText(coeffs, fmt)
  {
    text := Header();
    for i := 0 to |coeffs|
      invariant text == Header() + Render(PrintedUpTo(coeffs, i), fmt)
    {
      ghost var before := text;
      if Abs(coeffs[i]) > Threshold {
        // power = degree - i, with degree = len(coeffs) - 1
        text := text + TermText(SignPrefix(coeffs[i], i), Abs(coeffs[i]), |coeffs| - 1 - i, fmt);
      }
      TextStep(coeffs, i, fmt, before, text);
    }
  }

  /** Every printed term carries, for its coefficient c_i: |c_i| above the
      threshold, magnitude |c_i|, the sign rule and power degree - i. */
  predicate TermMatches(coeffs: seq<real>, t: PrintedTerm)
  {
    && t.index < |coeffs|
    && Abs(coeffs[t.index]) > Threshold
    && t.magnitude == Abs(coeffs[t.index])
    && t.sign == SignPrefix(coeffs[t.index], t.index)
    && t.power == |coeffs| - 1 - t.index
  }

  lemma {:induction false} PrintedTermsMatch(coeffs: seq<real>, k: nat)
    requires k <= |coeffs|
    ensures forall t :: t in PrintedUpTo(coeffs, k) ==> TermMatches(coeffs, t)
  {
    if k > 0 {
      PrintedTermsMatch(coeffs, k - 1);
    }
  }

  /** Along the line the coefficient indices increase, so the powers
      strictly decrease. */
  lemma {:induction false} PrintedInOrder(coeffs: seq<real>, k: nat)
    requires k <= |coeffs|
    ensures forall n, m :: 0 <= n < m < |PrintedUpTo(coeffs, k)| ==>
      PrintedUpTo(coeffs, k)[n].index < PrintedUpTo(coeffs, k)[m].index
  {
    if k > 0 {
      PrintedInOrder(coeffs, k - 1);
      var prev := PrintedUpTo(coeffs, k - 1);
      var ts := PrintedUpTo(coeffs, k);
      if Abs(coeffs[k - 1]) > Threshold {
        forall n, m | 0 <= n < m < |ts|
          ensures ts[n].index < ts[m].index
        {
          assert ts[n] == prev[n];
          if m < |prev| {
            assert ts[m] == prev[m];
          } else {
            assert prev[n] in prev;
          }
        }
      }
    }
  }

  /** Coefficient i is printed iff |c_i| > 1e-10. */
  lemma {:induction false} PrintedExactly(coeffs: seq<real>, k: nat, i: nat)
    requires i < k <= |coeffs|
    ensures Abs(coeffs[i]) > Threshold <==> exists t :: t in PrintedUpTo(coeffs, k) && t.index == i
  {
    var ts := PrintedUpTo(coeffs, k);
    var prev := PrintedUpTo(coeffs, k - 1);
    if i < k - 1 {
      PrintedExactly(coeffs, k - 1, i);
      if Abs(coeffs[k - 1]) > Threshold {
        assert ts == prev + [ts[|ts| - 1]];
        assert ts[|ts| - 1].index == k - 1;
      }
    } else {
      if Abs(coeffs[i]) > Threshold {
        assert ts[|ts| - 1] in ts;
      } else {
        PrintedTermsMatch(coeffs, k);
      }
    }
  }

  /** The printed line, summarised: its terms are exactly the coefficients
      above the threshold, in index order, each with the right sign,
      magnitude and power. */
  lemma PrintedTerms(coeffs: seq<real>)
    ensures forall t :: t in Printed(coeffs) ==> TermMatches(coeffs, t)
    ensures forall i :: 0 <= i < |coeffs| ==>
      (Abs(coeffs[i]) > Threshold <==> exists t :: t in Printed(coeffs) && t.index == i)
    ensures forall n, m :: 0 <= n < m < |Printed(coeffs)| ==>
      Printed(coeffs)[n].power > Printed(coeffs)[m].power
  {
    PrintedTermsMatch(coeffs, |coeffs|);
    PrintedInOrder(coeffs, |coeffs|);
    forall i | 0 <= i < |coeffs|
      ensures Abs(coeffs[i]) > Threshold <==> exists t :: t in Printed(coeffs) && t.index == i
    {
      PrintedExactly(coeffs, |coeffs|, i);
    }
    var ts := Printed(coeffs);
    forall n, m | 0 <= n < m < |ts|
      ensures ts[n].power > ts[m].power
    {
      assert ts[n] in ts && ts[m] in ts;
    }
  }

  // ---------------------------------------------------------------------
  // Evaluation at the estimate point

  /** `poly(x)` for coefficients c_0..c_d, highest power first: the Horner
      loop y := y·x + c over the coefficients in order. */
  function Evaluate(coeffs: seq<real>, x: real): real
  {
    if |coeffs| == 0 then 0.0 else Evaluate(coeffs[..|coeffs| - 1], x) * x + coeffs[|coeffs| - 1]
  }

  /** Σ_i c_i·x^(d-i): the polynomial as printed. */
  function PowerForm(coeffs: seq<real>, x: real): real
  {
    if |coeffs| == 0 then 0.0 else Times(coeffs[0], Pow(x, |coeffs| - 1)) + PowerForm(coeffs[1..], x)
  }

  /** Appending a coefficient multiplies the rest by x. */
  lemma {:induction false} PowerFormAppend(coeffs: seq<real>, d: real, x: real)
    ensures PowerForm(coeffs + [d], x) == PowerForm(coeffs, x) * x + d
    decreases |coeffs|
  {
    if |coeffs| == 0 {
      assert coeffs + [d] == [d];
      assert PowerForm([d], x) == Times(d, Pow(x, 0)) + PowerForm([], x) == d;
    } else {
      var tl := coeffs[1..];
      var longer := coeffs + [d];
      var p := Pow(x, |coeffs| - 1);
      var q := Pow(x, |coeffs|);
      var rest := PowerForm(tl, x);
      var tail := PowerForm(tl + [d], x);
      var whole := PowerForm(coeffs, x);
      var grown := PowerForm(longer, x);
      assert |longer| - 1 == |coeffs| && longer[0] == coeffs[0] && longer[1..] == tl + [d];
      PowerFormAppend(tl, d, x);
      Regroup(coeffs[0], x, p, q, rest, tail, whole, grown, d);
    }
  }

  /** One step of PowerFormAppend over plain numbers: with q = x·p,
      grown = a·q + tail, tail = rest·x + d and whole = a·p + rest,
      grown = whole·x + d. */
  lemma Regroup(a: real, x: real, p: real, q: real, rest: real, tail: real, whole: real, grown: real, d: real)
    requires q == x * p && whole == Times(a, p) + rest
    requires tail == rest * x + d && grown == Times(a, q) + tail
    ensures grown == whole * x + d
  {
  }

  /** The estimate agrees with the printed polynomial: Horner's loop
      computes Σ_i c_i·x^(d-i). */
  lemma {:induction false} EvaluateIsPowerForm(coeffs: seq<real>, x: real)
    ensures Evaluate(coeffs, x) == PowerForm(coeffs, x)
    decreases |coeffs|
  {
    if |coeffs| > 0 {
      var init := coeffs[..|coeffs| - 1];
      EvaluateIsPowerForm(init, x);
      PowerFormAppend(init, coeffs[|coeffs| - 1], x);
      assert init + [coeffs[|coeffs| - 1]] == coeffs;
    }
  }

  // ---------------------------------------------------------------------
  // The whole computation

  datatype LagrangeReport = LagrangeReport(
    points: seq<Point>, X: seq<real>, Y: seq<real>, coeffs: seq<real>,
    polynomial: string, estimate: Option<Point>)

  /** `calculate_lagrange` up to its report: parse, sort, interpolate (the
      interpolating routine is a parameter returning the coefficient
      vector), print, and evaluate at the estimate point when its text is
      not empty. */
  method CalculateLagrange(text: string, estimateText: string, parse: string -> Option<real>,
                           interpolate: (seq<real>, seq<real>) -> seq<real>, fmt: real -> string)
    returns (r: Result<LagrangeReport, InterpolationError>)
    ensures var chunks := Split(text, ';');
      r.Ok? <==> ChunksParse(chunks, |chunks|, parse) && (estimateText != "" ==> parse(estimateText).Some?)
    ensures r.Ok? ==>
      && Sorted(r.value.points)
      && multiset(r.value.points) == multiset(PointsOf(Split(text, ';'), parse))
      && r.value.X == Xs(r.value.points) && r.value.Y == Ys(r.value.points)
      && r.value.coeffs == interpolate(r.value.X, r.value.Y)
      && r.value.polynomial == PolynomialText(r.value.coeffs, fmt)
      && (r.value.estimate.Some? <==> estimateText != "")
      && (r.value.estimate.Some? ==>
            r.value.estimate.value == (parse(estimateText).value, Evaluate(r.value.coeffs, parse(estimateText).value)))
  {
    var parsed := ParsePoints(text, parse);
    if parsed.Err? {
      return Err(parsed.error);
    }
    var a := new Point[|parsed.value|](i requires 0 <= i < |parsed.value| => parsed.value[i]);
    assert a[..] == parsed.value;
    SortPoints(a);
    var points := a[..];
    var X := Xs(points);
    var Y := Ys(points);
    var coeffs := interpolate(X, Y);
    var polynomial := FormatPolynomial(coeffs, fmt);
    var estimate: Option<Point> := None;
    if estimateText != "" {
      var ex := parse(estimateText);
      if ex.None? {
        return Err(BadNumber);
      }
      estimate := Some((ex.value, Evaluate(coeffs, ex.value)));
    }
    return Ok(LagrangeReport(points, X, Y, coeffs, polynomial, estimate));
  }
}
