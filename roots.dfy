/** Root finding by bisection and by Newton-Raphson, as bounded iteration
    state machines with an iteration table. The integrand f and its
    derivative come from a symbolic-expression library and are taken here as
    arbitrary total functions on the reals. */
module RootFinding {
  import opened Common

  const BisectionMaxIter: nat := 100
  const NewtonMaxIter: nat := 50
  /** Newton gives up when |f'(x_n)| falls below 1e-12. */
  const DerivativeFloor: real := 0.000000000001

  // ---------------------------------------------------------------------
  // Bisection

  /** One row of the bisection table: n, a, b, c, f(c), b - a. */
  datatype BisectionRow = BisectionRow(n: nat, a: real, b: real, c: real, fc: real, width: real)

  datatype BisectionOutcome =
    | InvalidBracket
    | BisectionConverged(root: real)
    | BisectionMaxIterations(last: real)

  /** The bracket after one step: the half in which f changes sign when
      f(a)·f(c) < 0, the other half otherwise. */
  function BisectStep(f: real -> real, a: real, b: real): (r: (real, real))
    ensures r.1 - r.0 == (b - a) / 2.0
    ensures r == (a, (a + b) / 2.0) || r == ((a + b) / 2.0, b)
  {
    var c := (a + b) / 2.0;
    if f(a) * f(c) < 0.0 then (a, c) else (c, b)
  }

  /** The bracket after n steps from [a, b]. */
  function Bracket(f: real -> real, a: real, b: real, n: nat): (real, real)
  {
    if n == 0 then (a, b) else var p := Bracket(f, a, b, n - 1); BisectStep(f, p.0, p.1)
  }

  /** The table row printed at iteration n. */
  function RowAt(f: real -> real, a: real, b: real, n: nat): BisectionRow
  {
    var p := Bracket(f, a, b, n);
    var c := (p.0 + p.1) / 2.0;
    BisectionRow(n, p.0, p.1, c, f(c), p.1 - p.0)
  }

  /** The stopping test `abs(f_c) < tol or (b - a) / 2 < tol`. */
  predicate Stops(row: BisectionRow, tol: real)
  {
    Abs(row.fc) < tol || row.width / 2.0 < tol
  }

  /** The bracket width halves at every step. */
  lemma {:induction false} BracketWidth(f: real -> real, a: real, b: real, n: nat)
    ensures Pow(2.0, n) >= 1.0
    ensures Bracket(f, a, b, n).1 - Bracket(f, a, b, n).0 == (b - a) / Pow(2.0, n)
  {
    PowAtLeastOne(2.0, n);
    if n > 0 {
      BracketWidth(f, a, b, n - 1);
      var prev := Bracket(f, a, b, n - 1);
      var p := Pow(2.0, n - 1);
      var q := Pow(2.0, n);
      assert q == 2.0 * p;
      assert Bracket(f, a, b, n) == BisectStep(f, prev.0, prev.1);
      HalfQuotient(b - a, p, q);
    }
  }

  /** Brackets are nested inside the initial interval, whichever end is
      the larger: both ends stay between min(a, b) and max(a, b), and the
      bracket keeps the orientation of [a, b]. */
  lemma {:induction false} BracketNested(f: real -> real, a: real, b: real, n: nat)
    ensures var p := Bracket(f, a, b, n);
      Min(a, b) <= p.0 <= Max(a, b) && Min(a, b) <= p.1 <= Max(a, b)
    ensures a <= b ==> Bracket(f, a, b, n).0 <= Bracket(f, a, b, n).1
    ensures b <= a ==> Bracket(f, a, b, n).1 <= Bracket(f, a, b, n).0
  {
    if n > 0 {
      BracketNested(f, a, b, n - 1);
    }
  }

  /** The code does not reject a > b: the first row then has a negative
      width, so with tol >= 0 it meets the stopping test at once. */
  lemma ReversedBracketStops(f: real -> real, a: real, b: real, tol: real)
    requires a > b && tol >= 0.0
    ensures Stops(RowAt(f, a, b, 0), tol)
  {
  }

  /** A step keeps a sign change when f does not vanish at the midpoint. */
  lemma StepKeepsSignChange(f: real -> real, a: real, b: real)
    requires f(a) * f(b) < 0.0 && f((a + b) / 2.0) != 0.0
    ensures var r := BisectStep(f, a, b); f(r.0) * f(r.1) < 0.0
  {
    var c := (a + b) / 2.0;
    if !(f(a) * f(c) < 0.0) {
      if f(a) > 0.0 {
        assert f(b) < 0.0;
        assert f(c) > 0.0;
      } else {
        assert f(a) < 0.0 && f(b) > 0.0;
        assert f(c) < 0.0;
      }
    }
  }

  /** With tol > 0, every bracket reached without stopping has a sign
      change: f(c) = 0 would already have met the stopping test. */
  lemma {:induction false} BracketSignChange(f: real -> real, a: real, b: real, tol: real, n: nat)
    requires tol > 0.0 && f(a) * f(b) < 0.0
    requires forall i :: 0 <= i < n ==> !Stops(RowAt(f, a, b, i), tol)
    ensures var p := Bracket(f, a, b, n); f(p.0) * f(p.1) < 0.0
  {
    if n > 0 {
      BracketSignChange(f, a, b, tol, n - 1);
      var p := Bracket(f, a, b, n - 1);
      assert !Stops(RowAt(f, a, b, n - 1), tol);
      StepKeepsSignChange(f, p.0, p.1);
    }
  }

  /** Row i of the trace is the bracket after i halvings. */
  predicate RowsFollowBrackets(f: real -> real, a0: real, b0: real, trace: seq<BisectionRow>)
  {
    forall i :: 0 <= i < |trace| ==> trace[i] == RowAt(f, a0, b0, i)
  }

  /** None of the first k rows met the stopping test. */
  predicate NoneStops(trace: seq<BisectionRow>, tol: real, k: int)
    requires k <= |trace|
  {
    forall i :: 0 <= i < k ==> !Stops(trace[i], tol)
  }

  /** f changes sign between the ends of every row's bracket. */
  predicate SignChangeInEveryRow(f: real -> real, trace: seq<BisectionRow>)
  {
    forall i :: 0 <= i < |trace| ==> f(trace[i].a) * f(trace[i].b) < 0.0
  }

  /** `run_bisection`: rejected before any iteration unless f(a)·f(b) < 0;
      at most 100 rows, each the bracket after as many halvings; stops at
      the first row meeting the test and reports its midpoint, otherwise
      ends in the max-iterations state with the last midpoint. */
  method Bisection(f: real -> real, a0: real, b0: real, tol: real)
    returns (outcome: BisectionOutcome, trace: seq<BisectionRow>)
    ensures outcome == InvalidBracket <==> f(a0) * f(b0) >= 0.0
    ensures outcome == InvalidBracket ==> trace == []
    ensures |trace| <= BisectionMaxIter
    ensures RowsFollowBrackets(f, a0, b0, trace)
    ensures |trace| > 0 ==> NoneStops(trace, tol, |trace| - 1)
    ensures outcome.BisectionConverged? ==>
      |trace| > 0 && Stops(trace[|trace| - 1], tol) && outcome.root == trace[|trace| - 1].c
    ensures outcome.BisectionMaxIterations? ==>
      |trace| == BisectionMaxIter && !Stops(trace[|trace| - 1], tol)
      && outcome.last == trace[|trace| - 1].c
      && Pow(2.0, |trace|) >= 1.0 && (b0 - a0) / Pow(2.0, |trace|) >= tol
    ensures tol > 0.0 ==> SignChangeInEveryRow(f, trace)
  {
    if f(a0) * f(b0) >= 0.0 {
      return InvalidBracket, [];
    }
    outcome, trace := BisectionLoop(f, a0, b0, tol);
  }

  /** The iterations of `run_bisection` once the bracket is valid. */
  method BisectionLoop(f: real -> real, a0: real, b0: real, tol: real)
    returns (outcome: BisectionOutcome, trace: seq<BisectionRow>)
    requires f(a0) * f(b0) < 0.0
    ensures !outcome.InvalidBracket?
    ensures |trace| <= BisectionMaxIter
    ensures RowsFollowBrackets(f, a0, b0, trace)
    ensures |trace| > 0 ==> NoneStops(trace, tol, |trace| - 1)
    ensures outcome.BisectionConverged? ==>
      |trace| > 0 && Stops(trace[|trace| - 1], tol) && outcome.root == trace[|trace| - 1].c
    ensures outcome.BisectionMaxIterations? ==>
      |trace| == BisectionMaxIter && !Stops(trace[|trace| - 1], tol)
      && outcome.last == trace[|trace| - 1].c
      && Pow(2.0, |trace|) >= 1.0 && (b0 - a0) / Pow(2.0, |trace|) >= tol
    ensures tol > 0.0 ==> SignChangeInEveryRow(f, trace)
  {
    var a, b := a0, b0;
    trace := [];
    var n := 0;
    while n < BisectionMaxIter
      invariant 0 <= n <= BisectionMaxIter
      invariant |trace| == n
      invariant (a, b) == Bracket(f, a0, b0, n)
      invariant RowsFollowBrackets(f, a0, b0, trace)
      invariant NoneStops(trace, tol, n)
      invariant tol > 0.0 ==> SignChangeInEveryRow(f, trace)
    {
      var stop;
      stop, a, b, trace := Iterate(f, a0, b0, tol, a, b, trace);
      if stop {
        return BisectionConverged(trace[n].c), trace;
      }
      n := n + 1;
    }
    var last := trace[|trace| - 1];
    MaxIterationsWidth(f, a0, b0, tol, last, |trace|);
    outcome := BisectionMaxIterations(last.c);
  }

  /** One pass of the loop body: the row of the current bracket is
      appended; the pass stops on the test, otherwise it halves the bracket. */
  method Iterate(f: real -> real, a0: real, b0: real, tol: real, a: real, b: real, trace: seq<BisectionRow>)
    returns (stop: bool, a': real, b': real, trace': seq<BisectionRow>)
    requires f(a0) * f(b0) < 0.0
    requires (a, b) == Bracket(f, a0, b0, |trace|)
    requires RowsFollowBrackets(f, a0, b0, trace) && NoneStops(trace, tol, |trace|)
    requires tol > 0.0 ==> SignChangeInEveryRow(f, trace)
    ensures |trace'| == |trace| + 1
    ensures RowsFollowBrackets(f, a0, b0, trace') && NoneStops(trace', tol, |trace|)
    ensures tol > 0.0 ==> SignChangeInEveryRow(f, trace')
    ensures stop <==> Stops(trace'[|trace|], tol)
    ensures !stop ==> NoneStops(trace', tol, |trace'|) && (a', b') == BisectStep(f, a, b)
  {
    var n := |trace|;
    var c := (a + b) / 2.0;
    var fc := f(c);
    var row := BisectionRow(n, a, b, c, fc, b - a);
    ExtendTrace(f, a0, b0, tol, trace, row);
    trace' := trace + [row];
    a', b' := a, b;
    stop := Stops(row, tol);
    if !stop {
      assert trace'[n] == row;
      assert NoneStops(trace', tol, n + 1);
      a', b' := Halve(f, a, b, c, fc);
    }
  }

  /** `if f(a) * f_c < 0: b = c else: a = c`, with c the midpoint. */
  method Halve(f: real -> real, a: real, b: real, c: real, fc: real) returns (a': real, b': real)
    requires c == (a + b) / 2.0 && fc == f(c)
    ensures (a', b') == BisectStep(f, a, b)
  {
    a', b' := a, b;
    if f(a) * fc < 0.0 {
      b' := c;
    } else {
      a' := c;
    }
  }

  /** Appending the row of the current bracket keeps the trace facts. */
  lemma ExtendTrace(f: real -> real, a0: real, b0: real, tol: real, trace: seq<BisectionRow>, row: BisectionRow)
    requires f(a0) * f(b0) < 0.0
    requires RowsFollowBrackets(f, a0, b0, trace) && NoneStops(trace, tol, |trace|)
    requires tol > 0.0 ==> SignChangeInEveryRow(f, trace)
    requires var p := Bracket(f, a0, b0, |trace|);
      row == BisectionRow(|trace|, p.0, p.1, (p.0 + p.1) / 2.0, f((p.0 + p.1) / 2.0), p.1 - p.0)
    ensures RowsFollowBrackets(f, a0, b0, trace + [row])
    ensures NoneStops(trace + [row], tol, |trace|)
    ensures tol > 0.0 ==> SignChangeInEveryRow(f, trace + [row])
  {
    var t := trace + [row];
    assert t[|trace|] == RowAt(f, a0, b0, |trace|);
    if tol > 0.0 {
      BracketSignChange(f, a0, b0, tol, |trace|);
    }
  }

  /** When the n-th row (counting from one) did not stop, its bracket is at
      least 2·tol wide, so the initial width over 2^n is at least tol. */
  lemma MaxIterationsWidth(f: real -> real, a0: real, b0: real, tol: real, row: BisectionRow, n: nat)
    requires n >= 1 && row == RowAt(f, a0, b0, n - 1) && !Stops(row, tol)
    ensures Pow(2.0, n) >= 1.0
    ensures (b0 - a0) / Pow(2.0, n) >= tol
  {
    PowAtLeastOne(2.0, n);
    BracketWidth(f, a0, b0, n - 1);
    var p := Pow(2.0, n - 1);
    var q := Pow(2.0, n);
    assert q == 2.0 * p;
    assert row.width == (b0 - a0) / p;
    HalfQuotient(b0 - a0, p, q);
  }

  lemma HalfQuotient(w: real, p: real, q: real)
    requires p >= 1.0 && q == 2.0 * p
    ensures w / q == (w / p) / 2.0
  {
  }

  /** Every row's midpoint, and so every reported root estimate, lies
      between the two initial ends, in either order. */
  lemma BisectionRootInside(f: real -> real, a0: real, b0: real, n: nat)
    ensures Min(a0, b0) <= RowAt(f, a0, b0, n).c <= Max(a0, b0)
  {
    BracketNested(f, a0, b0, n);
  }

  // ---------------------------------------------------------------------
  // Newton-Raphson

  /** One row of the Newton table: n, x_n, f(x_n), f'(x_n), |x_{n+1} - x_n|. */
  datatype NewtonRow = NewtonRow(n: nat, x: real, fx: real, dfx: real, error: real)

  datatype NewtonOutcome =
    | NewtonConverged(root: real)
    | DerivativeVanished(at: real)
    | NewtonMaxIterations(last: real)

  /** x_{n+1} = x_n - f(x_n) / f'(x_n), defined where the guard lets the
      division happen. */
  function NewtonStep(f: real -> real, df: real -> real, x: real): real
    requires Abs(df(x)) >= DerivativeFloor
  {
    x - f(x) / df(x)
  }

  /** The outcome of at most `remaining` Newton iterations from x. */
  function NewtonFrom(f: real -> real, df: real -> real, x: real, tol: real, remaining: nat): NewtonOutcome
    decreases remaining
  {
    if remaining == 0 then NewtonMaxIterations(x)
    else if Abs(df(x)) < DerivativeFloor then DerivativeVanished(x)
    else
      var x1 := NewtonStep(f, df, x);
      if Abs(x1 - x) < tol then NewtonConverged(x1)
      else NewtonFrom(f, df, x1, tol, remaining - 1)
  }

  /** A starting point that is an exact root, with a usable derivative and
      tol > 0, is reported at once as the root. */
  lemma NewtonAtRoot(f: real -> real, df: real -> real, x: real, tol: real, remaining: nat)
    requires f(x) == 0.0 && Abs(df(x)) >= DerivativeFloor && tol > 0.0 && remaining > 0
    ensures NewtonFrom(f, df, x, tol, remaining) == NewtonConverged(x)
  {
    assert NewtonStep(f, df, x) == x;
  }

  /** A reported derivative failure is at a point where |f'| < 1e-12, and
      a reported root differs from the previous iterate by less than tol. */
  lemma {:induction false} NewtonOutcomeFacts(f: real -> real, df: real -> real, x: real, tol: real, remaining: nat)
    ensures NewtonFrom(f, df, x, tol, remaining).DerivativeVanished? ==>
      Abs(df(NewtonFrom(f, df, x, tol, remaining).at)) < DerivativeFloor
    ensures NewtonFrom(f, df, x, tol, remaining).NewtonConverged? ==> tol > 0.0
    decreases remaining
  {
    if remaining > 0 && Abs(df(x)) >= DerivativeFloor {
      var x1 := NewtonStep(f, df, x);
      if !(Abs(x1 - x) < tol) {
        NewtonOutcomeFacts(f, df, x1, tol, remaining - 1);
      }
    }
  }

  /** The row the table prints for iterate x at index n, once the guard on
      f'(x) has passed. */
  function NewtonRowAt(f: real -> real, df: real -> real, x: real, n: nat): (row: NewtonRow)
    requires Abs(df(x)) >= DerivativeFloor
    ensures row.x == x && row.n == n && row.error >= 0.0
    ensures row.fx == f(x) && row.dfx == df(x) && row.dfx != 0.0
    ensures row.error == Abs(NewtonStep(f, df, x) - x)
  {
    NewtonRow(n, x, f(x), df(x), Abs(NewtonStep(f, df, x) - x))
  }

  /** The trace starts at x0, row i is the row of its own iterate, each
      iterate is the Newton step from the previous one, and every row but
      the last moved by at least tol. */
  predicate NewtonChain(f: real -> real, df: real -> real, x0: real, tol: real, trace: seq<NewtonRow>)
  {
    && (|trace| > 0 ==> trace[0].x == x0)
    && (forall i :: 0 <= i < |trace| ==>
          Abs(df(trace[i].x)) >= DerivativeFloor && trace[i] == NewtonRowAt(f, df, trace[i].x, i))
    && (forall i, j :: 0 <= i < |trace| && 0 <= j < |trace| && j == i + 1 ==>
          trace[j].x == NewtonStep(f, df, trace[i].x) && trace[i].error >= tol)
  }

  /** Appending the row of the next iterate keeps the chain. */
  lemma ExtendChain(f: real -> real, df: real -> real, x0: real, tol: real, trace: seq<NewtonRow>, x: real)
    requires NewtonChain(f, df, x0, tol, trace)
    requires |trace| == 0 ==> x == x0
    requires |trace| > 0 ==> x == NewtonStep(f, df, trace[|trace| - 1].x) && trace[|trace| - 1].error >= tol
    requires Abs(df(x)) >= DerivativeFloor
    ensures NewtonChain(f, df, x0, tol, trace + [NewtonRowAt(f, df, x, |trace|)])
  {
    var t := trace + [NewtonRowAt(f, df, x, |trace|)];
    assert forall i :: 0 <= i < |trace| ==> t[i] == trace[i];
  }

  /** `run_newton`: at most 50 rows; each row divides only after checking
      |f'(x_n)| >= 1e-12, and the next row starts from x_{n+1}; the outcome
      is the one NewtonFrom defines. */
  method Newton(f: real -> real, df: real -> real, x0: real, tol: real)
    returns (outcome: NewtonOutcome, trace: seq<NewtonRow>)
    ensures outcome == NewtonFrom(f, df, x0, tol, NewtonMaxIter)
    ensures |trace| <= NewtonMaxIter
    ensures NewtonChain(f, df, x0, tol, trace)
    ensures outcome.NewtonConverged? ==>
      |trace| > 0 && trace[|trace| - 1].error < tol
      && outcome.root == NewtonStep(f, df, trace[|trace| - 1].x)
    ensures outcome.DerivativeVanished? ==>
      Abs(df(outcome.at)) < DerivativeFloor
      && (if |trace| == 0 then outcome.at == x0 else outcome.at == NewtonStep(f, df, trace[|trace| - 1].x))
    ensures outcome.NewtonMaxIterations? ==> |trace| == NewtonMaxIter
  {
    ghost var goal := NewtonFrom(f, df, x0, tol, NewtonMaxIter);
    var xn := x0;
    trace := [];
    var n := 0;
    while n < NewtonMaxIter
      invariant 0 <= n <= NewtonMaxIter
      invariant |trace| == n
      invariant NewtonFrom(f, df, xn, tol, NewtonMaxIter - n) == goal
      invariant NewtonChain(f, df, x0, tol, trace)
      invariant n == 0 ==> xn == x0
      invariant n > 0 ==> xn == NewtonStep(f, df, trace[n - 1].x) && trace[n - 1].error >= tol
    {
      NewtonUnfold(f, df, xn, tol, NewtonMaxIter - n);
      if Abs(df(xn)) < DerivativeFloor {
        return DerivativeVanished(xn), trace;
      }
      var xn1 := NewtonStep(f, df, xn);
      var row := NewtonRowAt(f, df, xn, |trace|);
      ExtendChain(f, df, x0, tol, trace, xn);
      trace := trace + [row];
      if row.error < tol {
        return NewtonConverged(xn1), trace;
      }
      xn := xn1;
      n := n + 1;
    }
    outcome := NewtonMaxIterations(xn);
  }

  /** One unfolding of NewtonFrom with at least one iteration left. */
  lemma NewtonUnfold(f: real -> real, df: real -> real, x: real, tol: real, remaining: nat)
    requires remaining > 0
    ensures Abs(df(x)) < DerivativeFloor ==> NewtonFrom(f, df, x, tol, remaining) == DerivativeVanished(x)
    ensures Abs(df(x)) >= DerivativeFloor && Abs(NewtonStep(f, df, x) - x) < tol ==>
      NewtonFrom(f, df, x, tol, remaining) == NewtonConverged(NewtonStep(f, df, x))
    ensures Abs(df(x)) >= DerivativeFloor && Abs(NewtonStep(f, df, x) - x) >= tol ==>
      NewtonFrom(f, df, x, tol, remaining) == NewtonFrom(f, df, NewtonStep(f, df, x), tol, remaining - 1)
  {
  }
}
