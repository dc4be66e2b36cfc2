/** Gaussian elimination with optional partial pivoting on an augmented
    n x (n+1) buffer [A | b], changed in place by row swaps and row updates,
    followed by back substitution. Arithmetic is over exact reals. */
module GaussElimination {
  import opened Common

  type Matrix = seq<seq<real>>

  datatype GaussError = Singular

  /** n rows of n + 1 entries: columns 0..n-1 hold A, column n holds b. */
  ghost predicate IsAugmented(M: Matrix)
  {
    forall r :: 0 <= r < |M| ==> |M[r]| == |M| + 1
  }

  /** x satisfies every equation of the augmented system M. */
  ghost predicate Solves(M: Matrix, x: seq<real>)
    requires IsAugmented(M) && |x| == |M|
  {
    forall r :: 0 <= r < |M| ==> Dot(M[r], x, 0, |M|) == M[r][|M|]
  }

  /** Two augmented systems of the same size have the same solution set. */
  ghost predicate SameSolutions(M: Matrix, N: Matrix)
    requires IsAugmented(M) && IsAugmented(N) && |M| == |N|
  {
    forall x :: |x| == |M| ==> (Solves(M, x) <==> Solves(N, x))
  }

  /** Every entry left of the diagonal is zero. */
  ghost predicate UpperTriangular(M: Matrix)
    requires IsAugmented(M)
  {
    forall r, c :: 0 <= c < r < |M| ==> M[r][c] == 0.0
  }

  /** The buffer's contents as a matrix value. */
  ghost function Rows(M: array2<real>): (R: Matrix)
    reads M
    ensures |R| == M.Length0
    ensures forall r :: 0 <= r < M.Length0 ==> |R[r]| == M.Length1
    ensures forall r, c :: 0 <= r < M.Length0 && 0 <= c < M.Length1 ==> R[r][c] == M[r, c]
  {
    seq(M.Length0, r requires 0 <= r < M.Length0 reads M =>
      seq(M.Length1, c requires 0 <= c < M.Length1 reads M => M[r, c]))
  }

  lemma MatrixExt(A: Matrix, B: Matrix)
    requires |A| == |B|
    requires forall r :: 0 <= r < |A| ==> |A[r]| == |B[r]|
    requires forall r, c :: 0 <= r < |A| && 0 <= c < |A[r]| ==> A[r][c] == B[r][c]
    ensures A == B
  {
    forall r | 0 <= r < |A| ensures A[r] == B[r] {
      assert forall c :: 0 <= c < |A[r]| ==> A[r][c] == B[r][c];
    }
  }

  // ---------------------------------------------------------------------
  // Row operations and forward elimination as functions on matrix values

  /** Exchanges rows i and j; every other row is left as it was. */
  function SwapRows(M: Matrix, i: nat, j: nat): (S: Matrix)
    requires i < |M| && j < |M|
    ensures |S| == |M| && S[i] == M[j] && S[j] == M[i]
    ensures forall r :: 0 <= r < |M| && r != i && r != j ==> S[r] == M[r]
  {
    M[i := M[j]][j := M[i]]
  }

  /** Row i minus (M[i][k] / M[k][k]) times row k, on columns k..n only;
      every other row is left as it was. */
  function EliminateRow(M: Matrix, i: nat, k: nat): (S: Matrix)
    requires IsAugmented(M) && i < |M| && k < |M| && M[k][k] != 0.0
    ensures IsAugmented(S) && |S| == |M|
    ensures forall r :: 0 <= r < |M| && r != i ==> S[r] == M[r]
  {
    var factor := M[i][k] / M[k][k];
    M[i := seq(|M| + 1, c requires 0 <= c < |M| + 1 =>
                 if c < k then M[i][c] else M[i][c] - factor * M[k][c])]
  }

  /** The row among k..hi-1 whose entry in column k has the largest
      magnitude, the first such row on ties (the argmax of the source). */
  function ArgMaxRow(M: Matrix, k: nat, hi: nat): (p: nat)
    requires IsAugmented(M) && k < hi <= |M|
    ensures k <= p < hi
    ensures forall r :: k <= r < hi ==> Abs(M[r][k]) <= Abs(M[p][k])
    ensures forall r :: k <= r < p ==> Abs(M[r][k]) < Abs(M[p][k])
  {
    if hi == k + 1 then k
    else
      var p := ArgMaxRow(M, k, hi - 1);
      if Abs(M[hi - 1][k]) > Abs(M[p][k]) then hi - 1 else p
  }

  /** With pivoting on, rows k and max_row are exchanged when they differ. */
  function Pivoted(M: Matrix, k: nat, usePivoting: bool): (P: Matrix)
    requires IsAugmented(M) && k < |M|
    ensures IsAugmented(P) && |P| == |M|
  {
    if usePivoting then
      var p := ArgMaxRow(M, k, |M|);
      if p != k then SwapRows(M, k, p) else M
    else M
  }

  /** With pivoting on, a zero pivot after the swap means that column k is
      zero in every row from k down: the failure is forced by the matrix. */
  lemma PivotZeroMeansZeroColumn(M: Matrix, k: nat)
    requires IsAugmented(M) && k < |M|
    requires Pivoted(M, k, true)[k][k] == 0.0
    ensures forall r :: k <= r < |M| ==> M[r][k] == 0.0
  {
    var p := ArgMaxRow(M, k, |M|);
    assert Pivoted(M, k, true)[k] == M[p];
    forall r | k <= r < |M| ensures M[r][k] == 0.0 {
      assert Abs(M[r][k]) <= Abs(M[p][k]);
    }
  }

  /** Eliminates column k from rows i..n-1, in increasing row order. */
  function EliminateBelow(M: Matrix, k: nat, i: nat): (E: Matrix)
    requires IsAugmented(M) && k < i <= |M| && M[k][k] != 0.0
    ensures IsAugmented(E) && |E| == |M|
    decreases |M| - i
  {
    if i == |M| then M else EliminateBelow(EliminateRow(M, i, k), k, i + 1)
  }

  /** Forward elimination over columns k..n-2. None when a pivot M[k][k]
      (after the optional swap) is zero. */
  function Forward(M: Matrix, k: nat, usePivoting: bool): (T: Option<Matrix>)
    requires IsAugmented(M) && k <= |M|
    ensures T.Some? ==> IsAugmented(T.value) && |T.value| == |M|
    decreases |M| - k
  {
    if k + 1 >= |M| then Some(M)
    else
      var P := Pivoted(M, k, usePivoting);
      if P[k][k] == 0.0 then None
      else Forward(EliminateBelow(P, k, k + 1), k + 1, usePivoting)
  }

  // ---------------------------------------------------------------------
  // Facts about dot products

  lemma {:induction false} DotZeroPrefix(u: seq<real>, v: seq<real>, hi: nat)
    requires hi <= |u| && hi <= |v|
    requires forall c :: 0 <= c < hi ==> u[c] == 0.0
    ensures Dot(u, v, 0, hi) == 0.0
  {
    if hi > 0 {
      DotZeroPrefix(u, v, hi - 1);
    }
  }

  /** With zeros left of the diagonal, equation r reads
      M[r][r]·x[r] + Σ_{j>r} M[r][j]·x[j] = M[r][n]. */
  lemma TriangularRow(row: seq<real>, x: seq<real>, r: nat, n: nat)
    requires r < n <= |row| && n <= |x|
    requires forall c :: 0 <= c < r ==> row[c] == 0.0
    ensures Dot(row, x, 0, n) == row[r] * x[r] + Dot(row, x, r + 1, n)
  {
    DotSplit(row, x, 0, r, n);
    DotSplit(row, x, r, r + 1, n);
    DotZeroPrefix(row, x, r);
  }

  // ---------------------------------------------------------------------
  // Row operations preserve the solution set

  lemma SwapPreservesSolutions(M: Matrix, i: nat, j: nat)
    requires IsAugmented(M) && i < |M| && j < |M|
    ensures IsAugmented(SwapRows(M, i, j))
    ensures SameSolutions(SwapRows(M, i, j), M)
  {
    var S := SwapRows(M, i, j);
    forall x | |x| == |M| ensures Solves(S, x) <==> Solves(M, x) {
      if Solves(S, x) {
        forall r | 0 <= r < |M| ensures Dot(M[r], x, 0, |M|) == M[r][|M|] {
          var s := if r == i then j else if r == j then i else r;
          assert M[r] == S[s];
        }
      }
      if Solves(M, x) {
        forall r | 0 <= r < |M| ensures Dot(S[r], x, 0, |M|) == S[r][|M|] {
          var s := if r == i then j else if r == j then i else r;
          assert S[r] == M[s];
        }
      }
    }
  }

  /** Replacing row i by row i minus f times another row k keeps the
      solution set. */
  lemma RowCombinationPreservesSolutions(M: Matrix, E: Matrix, i: nat, k: nat, f: real)
    requires IsAugmented(M) && IsAugmented(E) && |E| == |M| && i < |M| && k < |M| && i != k
    requires forall r :: 0 <= r < |M| && r != i ==> E[r] == M[r]
    requires forall c :: 0 <= c <= |M| ==> E[i][c] == M[i][c] - f * M[k][c]
    ensures SameSolutions(E, M)
  {
    var n := |M|;
    forall x | |x| == n ensures Solves(E, x) <==> Solves(M, x) {
      DotLinear(E[i], M[i], M[k], f, x, n);
      if Solves(E, x) {
        assert Dot(E[k], x, 0, n) == E[k][n];
        assert Dot(E[i], x, 0, n) == E[i][n];
        forall r | 0 <= r < n ensures Dot(M[r], x, 0, n) == M[r][n] {
          if r != i { assert E[r] == M[r]; }
        }
      }
      if Solves(M, x) {
        assert Dot(M[k], x, 0, n) == M[k][n];
        assert Dot(M[i], x, 0, n) == M[i][n];
        forall r | 0 <= r < n ensures Dot(E[r], x, 0, n) == E[r][n] {
          if r != i { assert E[r] == M[r]; }
        }
      }
    }
  }

  /** Eliminating row i against pivot row k, whose entries left of column k
      are already zero, zeroes M[i][k], leaves columns left of k alone and
      keeps the solution set. */
  lemma EliminateRowFacts(M: Matrix, i: nat, k: nat)
    requires IsAugmented(M) && i < |M| && k < |M| && i != k && M[k][k] != 0.0
    requires forall c :: 0 <= c < k ==> M[k][c] == 0.0
    ensures SameSolutions(EliminateRow(M, i, k), M)
    ensures EliminateRow(M, i, k)[i][k] == 0.0
    ensures forall c :: 0 <= c < k ==> EliminateRow(M, i, k)[i][c] == M[i][c]
  {
    var E := EliminateRow(M, i, k);
    var f := M[i][k] / M[k][k];
    assert f * M[k][k] == M[i][k];
    forall c | 0 <= c <= |M| ensures E[i][c] == M[i][c] - f * M[k][c] {
      if c < k { assert M[k][c] == 0.0; }
    }
    RowCombinationPreservesSolutions(M, E, i, k, f);
  }

  /** Eliminating column k from rows i..n-1: rows before i are untouched,
      entries left of column k are untouched, column k becomes zero in rows
      i..n-1, and the solution set is kept. */
  lemma {:induction false} EliminateBelowFacts(M: Matrix, k: nat, i: nat)
    requires IsAugmented(M) && k < i <= |M| && M[k][k] != 0.0
    requires forall c :: 0 <= c < k ==> M[k][c] == 0.0
    ensures SameSolutions(EliminateBelow(M, k, i), M)
    ensures forall r :: 0 <= r < i ==> EliminateBelow(M, k, i)[r] == M[r]
    ensures forall r :: i <= r < |M| ==> EliminateBelow(M, k, i)[r][k] == 0.0
    ensures forall r, c :: 0 <= r < |M| && 0 <= c < k ==> EliminateBelow(M, k, i)[r][c] == M[r][c]
    decreases |M| - i
  {
    if i < |M| {
      var E := EliminateRow(M, i, k);
      EliminateRowFacts(M, i, k);
      EliminateBelowFacts(E, k, i + 1);
    }
  }

  /** Zeros left of the diagonal in the first k columns. */
  ghost predicate EliminatedBelow(M: Matrix, k: nat)
    requires IsAugmented(M)
  {
    forall r, c :: 0 <= c < r < |M| && c < k ==> M[r][c] == 0.0
  }

  lemma SameSolutionsTrans(A: Matrix, B: Matrix, C: Matrix)
    requires IsAugmented(A) && IsAugmented(B) && IsAugmented(C) && |A| == |B| == |C|
    requires SameSolutions(A, B) && SameSolutions(B, C)
    ensures SameSolutions(A, C)
  {
  }

  /** The optional swap keeps the solution set, the rows above k and the
      zeros already made left of column k. */
  lemma PivotedFacts(M: Matrix, k: nat, usePivoting: bool)
    requires IsAugmented(M) && k < |M| && EliminatedBelow(M, k)
    ensures SameSolutions(Pivoted(M, k, usePivoting), M)
    ensures forall r :: 0 <= r < k ==> Pivoted(M, k, usePivoting)[r] == M[r]
    ensures EliminatedBelow(Pivoted(M, k, usePivoting), k)
  {
    var P := Pivoted(M, k, usePivoting);
    if usePivoting {
      var p := ArgMaxRow(M, k, |M|);
      if p != k {
        SwapPreservesSolutions(M, k, p);
        forall r, c | 0 <= c < r < |M| && c < k ensures P[r][c] == 0.0 {
          var s := if r == k then p else if r == p then k else r;
          assert P[r] == M[s];
        }
      }
    }
  }

  /** One elimination step at column k keeps the solution set and the rows
      0..k, and extends the zeros left of the diagonal to column k. */
  lemma EliminationStepFacts(P: Matrix, k: nat)
    requires IsAugmented(P) && k < |P| && EliminatedBelow(P, k) && P[k][k] != 0.0
    ensures SameSolutions(EliminateBelow(P, k, k + 1), P)
    ensures forall r :: 0 <= r <= k ==> EliminateBelow(P, k, k + 1)[r] == P[r]
    ensures EliminatedBelow(EliminateBelow(P, k, k + 1), k + 1)
  {
    EliminateBelowFacts(P, k, k + 1);
  }

  /** What forward elimination from column k promises about its result T:
      upper triangular, the same solution set, nonzero pivots in rows
      0..n-2, and rows 0..k-1 as they were. */
  ghost predicate ForwardResult(M: Matrix, T: Matrix, k: nat)
    requires IsAugmented(M) && IsAugmented(T) && |T| == |M|
  {
    && UpperTriangular(T)
    && SameSolutions(T, M)
    && (forall r :: 0 <= r < |M| - 1 ==> T[r][r] != 0.0)
    && (forall r :: 0 <= r < k && r < |M| ==> T[r] == M[r])
  }

  /** Forward elimination from column k may start: zeros left of the
      diagonal in columns 0..k-1 and nonzero pivots in rows 0..k-1. */
  ghost predicate ForwardReady(M: Matrix, k: nat)
  {
    && IsAugmented(M) && k <= |M| && EliminatedBelow(M, k)
    && (forall r :: 0 <= r < k && r < |M| ==> M[r][r] != 0.0)
  }

  /** Forward elimination from column k, when it succeeds, meets its
      promise. */
  ghost predicate ForwardMeets(M: Matrix, k: nat, usePivoting: bool)
    requires IsAugmented(M) && k <= |M|
  {
    Forward(M, k, usePivoting).Some? ==> ForwardResult(M, Forward(M, k, usePivoting).value, k)
  }

  /** Forward elimination that succeeds yields an upper-triangular system
      with nonzero pivots in rows 0..n-2 and the same solution set; rows
      already processed are never changed again. */
  lemma {:induction false} ForwardFacts(M: Matrix, k: nat, usePivoting: bool)
    requires ForwardReady(M, k)
    ensures ForwardMeets(M, k, usePivoting)
    decreases |M| - k
  {
    if k + 1 < |M| && Pivoted(M, k, usePivoting)[k][k] != 0.0 {
      StepFacts(M, k, usePivoting);
      var E := EliminateBelow(Pivoted(M, k, usePivoting), k, k + 1);
      ForwardFacts(E, k + 1, usePivoting);
      StepMeets(M, k, usePivoting);
    } else {
      ForwardStops(M, k, usePivoting);
    }
  }

  /** The elimination step at column k leaves a matrix ready for column
      k + 1, with the solution set and rows 0..k-1 kept. */
  lemma StepFacts(M: Matrix, k: nat, usePivoting: bool)
    requires ForwardReady(M, k) && k + 1 < |M|
    requires Pivoted(M, k, usePivoting)[k][k] != 0.0
    ensures var E := EliminateBelow(Pivoted(M, k, usePivoting), k, k + 1);
      && ForwardReady(E, k + 1)
      && SameSolutions(E, M)
      && (forall r :: 0 <= r < k ==> E[r] == M[r])
  {
    var P := Pivoted(M, k, usePivoting);
    PivotedFacts(M, k, usePivoting);
    var E := EliminateBelow(P, k, k + 1);
    EliminationStepFacts(P, k);
    forall r | 0 <= r < k + 1 ensures E[r][r] != 0.0 {
      assert E[r] == P[r];
      if r < k { assert P[r] == M[r]; }
    }
    SameSolutionsTrans(E, P, M);
  }

  /** The promise for column k + 1 after the step gives the promise for
      column k. */
  lemma StepMeets(M: Matrix, k: nat, usePivoting: bool)
    requires IsAugmented(M) && k + 1 < |M|
    requires Pivoted(M, k, usePivoting)[k][k] != 0.0
    requires var E := EliminateBelow(Pivoted(M, k, usePivoting), k, k + 1);
      && ForwardMeets(E, k + 1, usePivoting)
      && SameSolutions(E, M)
      && (forall r :: 0 <= r < k ==> E[r] == M[r])
    ensures ForwardMeets(M, k, usePivoting)
  {
    var E := EliminateBelow(Pivoted(M, k, usePivoting), k, k + 1);
    var T := Forward(E, k + 1, usePivoting);
    assert Forward(M, k, usePivoting) == T;
    if T.Some? {
      SameSolutionsTrans(T.value, E, M);
    }
  }

  /** At the last column, or at a zero pivot, the promise holds: either the
      matrix is returned as it is, or nothing is returned. */
  lemma ForwardStops(M: Matrix, k: nat, usePivoting: bool)
    requires ForwardReady(M, k)
    requires k + 1 >= |M| || Pivoted(M, k, usePivoting)[k][k] == 0.0
    ensures ForwardMeets(M, k, usePivoting)
  {
    if k + 1 >= |M| {
      assert Forward(M, k, usePivoting) == Some(M);
      assert |M| > 0 ==> EliminatedBelow(M, |M| - 1);
    }
  }

  /** An upper-triangular system whose rows satisfy the back-substitution
      equations is solved by x. */
  lemma TriangularSolves(T: Matrix, x: seq<real>)
    requires IsAugmented(T) && UpperTriangular(T) && |x| == |T|
    requires BackSubstituted(T, x, 0)
    ensures Solves(T, x)
  {
    forall i | 0 <= i < |T| ensures Dot(T[i], x, 0, |T|) == T[i][|T|] {
      assert RowSolved(T, x, i);
      TriangularRow(T[i], x, i, |T|);
    }
  }

  /** In a row with zeros left of a nonzero diagonal entry i, two solutions
      that agree after position i agree at i too. */
  lemma RowDetermines(row: seq<real>, x: seq<real>, y: seq<real>, i: nat, n: nat)
    requires i < n <= |row| && n <= |x| && n <= |y|
    requires forall c :: 0 <= c < i ==> row[c] == 0.0
    requires row[i] != 0.0
    requires forall c :: i < c < n ==> x[c] == y[c]
    requires Dot(row, x, 0, n) == Dot(row, y, 0, n)
    ensures x[i] == y[i]
  {
    TriangularRow(row, x, i, n);
    TriangularRow(row, y, i, n);
    DotFrame(row, x, y, i + 1, n);
    assert row[i] * x[i] == row[i] * y[i];
    assert row[i] * (x[i] - y[i]) == 0.0;
  }

  /** An upper-triangular system with a nonzero diagonal has at most one
      solution. */
  lemma {:induction false} TriangularSolutionUnique(M: Matrix, x: seq<real>, y: seq<real>)
    requires IsAugmented(M) && UpperTriangular(M) && |x| == |M| && |y| == |M|
    requires forall r :: 0 <= r < |M| ==> M[r][r] != 0.0
    requires Solves(M, x) && Solves(M, y)
    ensures x == y
  {
    var n := |M|;
    var i := n;
    while i > 0
      invariant 0 <= i <= n
      invariant forall c :: i <= c < n ==> x[c] == y[c]
    {
      i := i - 1;
      assert Dot(M[i], x, 0, n) == M[i][n] == Dot(M[i], y, 0, n);
      RowDetermines(M[i], x, y, i, n);
    }
  }

  // ---------------------------------------------------------------------
  // The in-place buffer

  /** `M[[k, p]] = M[[p, k]]`: exchanges two rows of the buffer. */
  method SwapRowsInPlace(M: array2<real>, i: nat, j: nat)
    requires i < M.Length0 && j < M.Length0
    modifies M
    ensures Rows(M) == SwapRows(old(Rows(M)), i, j)
  {
    ghost var R := Rows(M);
    for c := 0 to M.Length1
      invariant forall r, d :: 0 <= r < M.Length0 && 0 <= d < M.Length1 ==>
        M[r, d] == (if d < c then SwapRows(R, i, j)[r][d] else R[r][d])
    {
      M[i, c], M[j, c] := M[j, c], M[i, c];
    }
    MatrixExt(Rows(M), SwapRows(R, i, j));
  }

  /** `M[i, k:] = M[i, k:] - factor * M[k, k:]` with factor = M[i,k] / M[k,k]. */
  method EliminateRowInPlace(M: array2<real>, i: nat, k: nat)
    requires M.Length1 == M.Length0 + 1 && i < M.Length0 && k < M.Length0 && i != k
    requires M[k, k] != 0.0
    modifies M
    ensures Rows(M) == EliminateRow(old(Rows(M)), i, k)
  {
    ghost var R := Rows(M);
    var factor := M[i, k] / M[k, k];
    for c := k to M.Length1
      invariant forall r, d :: 0 <= r < M.Length0 && 0 <= d < M.Length1 ==>
        M[r, d] == (if r == i && k <= d < c then R[i][d] - factor * R[k][d] else R[r][d])
    {
      M[i, c] := M[i, c] - factor * M[k, c];
    }
    MatrixExt(Rows(M), EliminateRow(R, i, k));
  }

  /** `k + argmax(|M[k:, k]|)` computed by a scan of column k. */
  method PivotRow(M: array2<real>, k: nat) returns (p: nat)
    requires M.Length1 == M.Length0 + 1 && k < M.Length0
    ensures p == ArgMaxRow(Rows(M), k, M.Length0)
  {
    ghost var R := Rows(M);
    p := k;
    for r := k + 1 to M.Length0
      invariant p == ArgMaxRow(R, k, r)
    {
      if Abs(M[r, k]) > Abs(M[p, k]) {
        p := r;
      }
    }
  }

  /** With pivoting on, swaps row k with the pivot row when they differ. */
  method PivotInPlace(M: array2<real>, k: nat, usePivoting: bool)
    requires M.Length1 == M.Length0 + 1 && k < M.Length0
    modifies M
    ensures IsAugmented(old(Rows(M)))
    ensures Rows(M) == Pivoted(old(Rows(M)), k, usePivoting)
  {
    if usePivoting {
      var p := PivotRow(M, k);
      if p != k {
        SwapRowsInPlace(M, k, p);
      }
    }
  }

  /** `for i in range(k + 1, n)`: eliminates column k below the pivot. */
  method EliminateColumn(M: array2<real>, k: nat)
    requires M.Length1 == M.Length0 + 1 && k < M.Length0 && M[k, k] != 0.0
    modifies M
    ensures IsAugmented(old(Rows(M)))
    ensures Rows(M) == EliminateBelow(old(Rows(M)), k, k + 1)
  {
    ghost var P := Rows(M);
    var i := k + 1;
    while i < M.Length0
      invariant k + 1 <= i <= M.Length0
      invariant IsAugmented(Rows(M))
      invariant Rows(M)[k] == P[k]
      invariant EliminateBelow(Rows(M), k, i) == EliminateBelow(P, k, k + 1)
    {
      EliminateRowInPlace(M, i, k);
      i := i + 1;
    }
  }

  /** Forward elimination over columns 0..n-2 in place: the buffer ends as
      the value Forward computes, and the method reports whether every pivot
      was nonzero. */
  method ForwardEliminate(M: array2<real>, usePivoting: bool) returns (ok: bool)
    requires M.Length1 == M.Length0 + 1
    modifies M
    ensures IsAugmented(old(Rows(M)))
    ensures ok <==> Forward(old(Rows(M)), 0, usePivoting).Some?
    ensures ok ==> Rows(M) == Forward(old(Rows(M)), 0, usePivoting).value
  {
    var n := M.Length0;
    ghost var M0 := Rows(M);
    var k := 0;
    while k + 1 < n
      invariant k <= n
      invariant IsAugmented(Rows(M))
      invariant Forward(Rows(M), k, usePivoting) == Forward(M0, 0, usePivoting)
    {
      PivotInPlace(M, k, usePivoting);
      if M[k, k] == 0.0 {
        return false;
      }
      EliminateColumn(M, k);
      k := k + 1;
    }
    ok := true;
  }

  /** Row q of R satisfies its back-substitution equation
      R[q][q]·x[q] + Σ_{j>q} R[q][j]·x[j] = R[q][n]. */
  ghost predicate RowSolved(R: Matrix, x: seq<real>, q: nat)
    requires IsAugmented(R) && |x| == |R| && q < |R|
  {
    R[q][q] * x[q] + Dot(R[q], x, q + 1, |R|) == R[q][|R|]
  }

  /** Rows i..n-1 of R satisfy their back-substitution equations. */
  ghost predicate BackSubstituted(R: Matrix, x: seq<real>, i: nat)
    requires IsAugmented(R) && |x| == |R|
  {
    forall q :: i <= q < |R| ==> RowSolved(R, x, q)
  }

  /** Solving row i for x[i] extends the back-substituted rows by one. */
  lemma {:induction false} BackSubstituteStep(R: Matrix, x: seq<real>, i: nat, s: real)
    requires IsAugmented(R) && |x| == |R| && i < |R| && R[i][i] != 0.0
    requires BackSubstituted(R, x, i + 1)
    requires s == Dot(R[i], x, i + 1, |R|)
    ensures BackSubstituted(R, x[i := (R[i][|R|] - s) / R[i][i]], i)
  {
    var n := |R|;
    var y := x[i := (R[i][n] - s) / R[i][i]];
    forall q | i <= q < n
      ensures RowSolved(R, y, q)
    {
      if q == i {
        SolvedRow(R, x, i, s);
      } else {
        KeptRow(R, x, i, (R[i][n] - s) / R[i][i], q);
      }
    }
  }

  /** Writing x[i] leaves the equations of the rows below i satisfied. */
  lemma {:induction false} KeptRow(R: Matrix, x: seq<real>, i: nat, v: real, q: nat)
    requires IsAugmented(R) && |x| == |R| && i < q < |R|
    requires BackSubstituted(R, x, i + 1)
    ensures RowSolved(R, x[i := v], q)
  {
    var y := x[i := v];
    DotFrame(R[q], x, y, q + 1, |R|);
    assert RowSolved(R, x, q);
    assert y[q] == x[q];
    assert R[q][q] * y[q] == R[q][q] * x[q];
    assert Dot(R[q], y, q + 1, |R|) == Dot(R[q], x, q + 1, |R|);
    assert R[q][q] * y[q] + Dot(R[q], y, q + 1, |R|) == R[q][|R|];
    assert RowSolved(R, y, q);
  }

  /** x[i] = (R[i][n] - s) / R[i][i] satisfies equation i. */
  lemma {:induction false} SolvedRow(R: Matrix, x: seq<real>, i: nat, s: real)
    requires IsAugmented(R) && |x| == |R| && i < |R| && R[i][i] != 0.0
    requires s == Dot(R[i], x, i + 1, |R|)
    ensures RowSolved(R, x[i := (R[i][|R|] - s) / R[i][i]], i)
  {
    var v := (R[i][|R|] - s) / R[i][i];
    DotFrame(R[i], x, x[i := v], i + 1, |R|);
    DivideBack(R[i][|R|] - s, R[i][i]);
  }

  lemma DivideBack(b: real, a: real)
    requires a != 0.0
    ensures a * (b / a) == b
  {
  }

  /** `np.dot(M[i, i+1:n], x[i+1:n])`. */
  method TailDot(M: array2<real>, i: nat, x: array<real>) returns (s: real)
    requires M.Length1 == M.Length0 + 1 && i < M.Length0 && x.Length == M.Length0
    ensures s == Dot(Rows(M)[i], x[..], i + 1, M.Length0)
  {
    ghost var R := Rows(M);
    s := 0.0;
    for j := i + 1 to M.Length0
      invariant s == Dot(R[i], x[..], i + 1, j)
    {
      s := s + M[i, j] * x[j];
    }
  }

  predicate NonzeroDiagonal(M: array2<real>)
    reads M
  {
    forall i :: 0 <= i < M.Length0 && i < M.Length1 ==> M[i, i] != 0.0
  }

  /** Back substitution from the last row up:
      x[i] = (M[i,n] - Σ_{j>i} M[i,j]·x[j]) / M[i,i].
      Fails exactly when some diagonal entry is zero. */
  method BackSubstitute(M: array2<real>) returns (r: Result<seq<real>, GaussError>)
    requires M.Length1 == M.Length0 + 1
    ensures IsAugmented(Rows(M))
    ensures r.Ok? <==> NonzeroDiagonal(M)
    ensures r.Ok? ==> |r.value| == M.Length0 && BackSubstituted(Rows(M), r.value, 0)
  {
    var n := M.Length0;
    ghost var R := Rows(M);
    var x := new real[n](_ => 0.0);
    for i := n downto 0
      invariant forall q :: i <= q < n ==> R[q][q] != 0.0
      invariant BackSubstituted(R, x[..], i)
    {
      if M[i, i] == 0.0 {
        return Err(Singular);
      }
      var s := TailDot(M, i, x);
      ghost var before := x[..];
      BackSubstituteStep(R, before, i, s);
      x[i] := (M[i, n] - s) / M[i, i];
      assert x[..] == before[i := (R[i][n] - s) / R[i][i]];
    }
    assert forall q :: 0 <= q < n ==> R[q][q] != 0.0;
    return Ok(x[..]);
  }

  /** The augmented buffer contents [A | b]. */
  function Augment(A: Matrix, b: seq<real>): (M: Matrix)
    requires |A| == |b| && forall i :: 0 <= i < |A| ==> |A[i]| == |b|
    ensures |M| == |b| && IsAugmented(M)
  {
    seq(|b|, i requires 0 <= i < |b| => A[i] + [b[i]])
  }

  /** A·x = b. */
  ghost predicate IsSolution(A: Matrix, b: seq<real>, x: seq<real>)
    requires |A| == |b| == |x| && forall i :: 0 <= i < |A| ==> |A[i]| == |b|
  {
    forall i :: 0 <= i < |A| ==> Dot(A[i], x, 0, |b|) == b[i]
  }

  lemma {:induction false} DotFrameLeft(u1: seq<real>, u2: seq<real>, x: seq<real>, hi: nat)
    requires hi <= |u1| && hi <= |u2| && hi <= |x|
    requires forall c :: 0 <= c < hi ==> u1[c] == u2[c]
    ensures Dot(u1, x, 0, hi) == Dot(u2, x, 0, hi)
  {
    if hi > 0 {
      DotFrameLeft(u1, u2, x, hi - 1);
    }
  }

  lemma AugmentSolves(A: Matrix, b: seq<real>, x: seq<real>)
    requires |A| == |b| == |x| && forall i :: 0 <= i < |A| ==> |A[i]| == |b|
    ensures IsAugmented(Augment(A, b))
    ensures Solves(Augment(A, b), x) <==> IsSolution(A, b, x)
  {
    var M := Augment(A, b);
    forall i | 0 <= i < |A| ensures Dot(M[i], x, 0, |b|) == Dot(A[i], x, 0, |b|) {
      DotFrameLeft(M[i], A[i], x, |b|);
    }
  }

  /** `solve_gauss`: builds [A | b], eliminates forward with or without
      partial pivoting, and back-substitutes. A returned vector is the one
      and only solution of A·x = b. */
  method SolveGauss(A: Matrix, b: seq<real>, usePivoting: bool) returns (r: Result<seq<real>, GaussError>)
    requires |A| == |b| && forall i :: 0 <= i < |A| ==> |A[i]| == |b|
    ensures r.Ok? ==> |r.value| == |b| && IsSolution(A, b, r.value)
    ensures r.Ok? ==> forall y :: |y| == |b| && IsSolution(A, b, y) ==> y == r.value
    ensures r.Err? <==>
      (Forward(Augment(A, b), 0, usePivoting).None?
       || exists i :: 0 <= i < |b| && Forward(Augment(A, b), 0, usePivoting).value[i][i] == 0.0)
  {
    var n := |b|;
    var M := new real[n, n + 1]((i, j) requires 0 <= i < n && 0 <= j < n + 1 =>
      if j < n then A[i][j] else b[i]);
    ghost var M0 := Rows(M);
    MatrixExt(M0, Augment(A, b));
    var ok := ForwardEliminate(M, usePivoting);
    if !ok {
      return Err(Singular);
    }
    ForwardFacts(M0, 0, usePivoting);
    assert ForwardMeets(M0, 0, usePivoting);
    r := BackSubstitute(M);
    if r.Ok? {
      var x := r.value;
      var T := Rows(M);
      TriangularSolves(T, x);
      AugmentSolves(A, b, x);
      forall y | |y| == n && IsSolution(A, b, y) ensures y == x {
        AugmentSolves(A, b, y);
        TriangularSolutionUnique(T, x, y);
      }
    }
  }
}
