/** Small shared vocabulary: optional values, results with an error kind, and
    exact real arithmetic helpers used by several numerical engines. */
module Common {

  datatype Option<+T> = None | Some(value: T)

  datatype Result<+T, +E> = Ok(value: T) | Err(error: E)

  /** Absolute value over exact reals. */
  function Abs(x: real): (r: real)
    ensures r >= 0.0
    ensures r == x || r == -x
  {
    if x < 0.0 then -x else x
  }

  /** The smaller and the larger of two reals. */
  function Min(x: real, y: real): real
  {
    if x <= y then x else y
  }

  function Max(x: real, y: real): real
  {
    if x <= y then y else x
  }

  /** x to a natural power; Pow(x, 0) is 1 for every x, as Python's `x**0` is. */
  function Pow(x: real, k: nat): real
  {
    if k == 0 then 1.0 else x * Pow(x, k - 1)
  }

  /** A power of a base of at least one is at least one (so it can divide). */
  lemma {:induction false} PowAtLeastOne(x: real, k: nat)
    requires x >= 1.0
    ensures Pow(x, k) >= 1.0
  {
    if k > 0 {
      PowAtLeastOne(x, k - 1);
      var p := Pow(x, k - 1);
      assert x * p >= 1.0 * p;
    }
  }

  /** factor·x. Rescaled equations are stated with it, so that two products
      whose factors are equal are recognised as equal term by term. */
  function Times(factor: real, x: real): real
  {
    factor * x
  }

  /** Sum of the entries s[lo..hi]. */
  function Sum(s: seq<real>, lo: nat, hi: nat): real
    requires lo <= hi <= |s|
    decreases hi - lo
  {
    if lo == hi then 0.0 else Sum(s, lo, hi - 1) + s[hi - 1]
  }

  /** Dot product of u[lo..hi] and v[lo..hi]. */
  function Dot(u: seq<real>, v: seq<real>, lo: nat, hi: nat): real
    requires lo <= hi <= |u| && hi <= |v|
    decreases hi - lo
  {
    if lo == hi then 0.0 else Dot(u, v, lo, hi - 1) + u[hi - 1] * v[hi - 1]
  }

  /** A dot product splits at any intermediate index. */
  lemma {:induction false} DotSplit(u: seq<real>, v: seq<real>, lo: nat, mid: nat, hi: nat)
    requires lo <= mid <= hi <= |u| && hi <= |v|
    ensures Dot(u, v, lo, hi) == Dot(u, v, lo, mid) + Dot(u, v, mid, hi)
    decreases hi
  {
    if hi > mid {
      DotSplit(u, v, lo, mid, hi - 1);
    }
  }

  /** Dot product against an affine combination of two rows. */
  lemma {:induction false} DotLinear(u: seq<real>, v: seq<real>, w: seq<real>, f: real, x: seq<real>, hi: nat)
    requires hi <= |u| && hi <= |v| && hi <= |w| && hi <= |x|
    requires forall c :: 0 <= c < hi ==> u[c] == v[c] - f * w[c]
    ensures Dot(u, x, 0, hi) == Dot(v, x, 0, hi) - f * Dot(w, x, 0, hi)
  {
    if hi > 0 {
      DotLinear(u, v, w, f, x, hi - 1);
      assert u[hi - 1] * x[hi - 1] == v[hi - 1] * x[hi - 1] - f * (w[hi - 1] * x[hi - 1]);
    }
  }

  /** Dot products agree when the second vectors agree on the range. */
  lemma {:induction false} DotFrame(u: seq<real>, v1: seq<real>, v2: seq<real>, lo: nat, hi: nat)
    requires lo <= hi <= |u| && hi <= |v1| && hi <= |v2|
    requires forall c :: lo <= c < hi ==> v1[c] == v2[c]
    ensures Dot(u, v1, lo, hi) == Dot(u, v2, lo, hi)
    decreases hi - lo
  {
    if lo < hi {
      DotFrame(u, v1, v2, lo, hi - 1);
    }
  }

  // ---------------------------------------------------------------------
  // Text fields

  /** Python's `s.split(sep)`: the pieces between separators, always at
      least one, none of which contains the separator. */
  function Split(s: string, sep: char): (r: seq<string>)
    ensures |r| >= 1
    ensures forall i :: 0 <= i < |r| ==> sep !in r[i]
  {
    if |s| == 0 then [""]
    else
      var rest := Split(s[1..], sep);
      if s[0] == sep then [""] + rest
      else [[s[0]] + rest[0]] + rest[1..]
  }

  /** `sep.join(pieces)`. */
  function Join(pieces: seq<string>, sep: char): string
    requires |pieces| >= 1
  {
    if |pieces| == 1 then pieces[0] else pieces[0] + [sep] + Join(pieces[1..], sep)
  }

  /** Joining the pieces of a split gives back the text. */
  lemma {:induction false} JoinSplit(s: string, sep: char)
    ensures Join(Split(s, sep), sep) == s
  {
    if |s| > 0 {
      JoinSplit(s[1..], sep);
      var rest := Split(s[1..], sep);
      if s[0] != sep {
        var r := Split(s, sep);
        assert r[1..] == rest[1..];
        if |rest| == 1 {
          assert r == [[s[0]] + rest[0]];
        } else {
          assert Join(r, sep) == [s[0]] + rest[0] + [sep] + Join(rest[1..], sep);
        }
        assert s == [s[0]] + s[1..];
      } else {
        assert s == [sep] + s[1..];
      }
    }
  }

  /** Splitting joined pieces gives back the pieces when none of them
      contains the separator. */
  lemma {:induction false} SplitJoin(pieces: seq<string>, sep: char)
    requires |pieces| >= 1
    requires forall i :: 0 <= i < |pieces| ==> sep !in pieces[i]
    ensures Split(Join(pieces, sep), sep) == pieces
    decreases |pieces|, |pieces[0]|
  {
    if |pieces| == 1 {
      SplitNoSeparator(pieces[0], sep);
    } else if |pieces[0]| == 0 {
      SplitJoin(pieces[1..], sep);
      SplitJoinEmptyHead(pieces, sep);
    } else {
      var p0 := pieces[0];
      var shorter := [p0[1..]] + pieces[1..];
      assert forall i :: 0 <= i < |shorter| ==> sep !in shorter[i] by {
        assert forall c :: c in p0[1..] ==> c in p0;
      }
      SplitJoin(shorter, sep);
      SplitJoinNonEmptyHead(pieces, sep);
    }
  }

  lemma SplitJoinEmptyHead(pieces: seq<string>, sep: char)
    requires |pieces| >= 2 && pieces[0] == ""
    requires Split(Join(pieces[1..], sep), sep) == pieces[1..]
    ensures Split(Join(pieces, sep), sep) == pieces
  {
    var t := Join(pieces[1..], sep);
    var j := Join(pieces, sep);
    assert j == [sep] + t;
    assert j[0] == sep && j[1..] == t;
    assert pieces == [""] + pieces[1..];
  }

  lemma SplitJoinNonEmptyHead(pieces: seq<string>, sep: char)
    requires |pieces| >= 2 && |pieces[0]| > 0 && sep !in pieces[0]
    requires Split(Join([pieces[0][1..]] + pieces[1..], sep), sep) == [pieces[0][1..]] + pieces[1..]
    ensures Split(Join(pieces, sep), sep) == pieces
  {
    var p0 := pieces[0];
    var shorter := [p0[1..]] + pieces[1..];
    var j := Join(pieces, sep);
    var t := Join(shorter, sep);
    JoinFirstChar(pieces, sep);
    assert j[0] == p0[0] && j[1..] == t;
    assert p0[0] != sep by {
      assert p0[0] in p0;
    }
    var r := Split(t, sep);
    assert Split(j, sep) == [[p0[0]] + r[0]] + r[1..];
    assert r[0] == p0[1..] && r[1..] == pieces[1..];
    assert p0 == [p0[0]] + p0[1..];
    assert pieces == [p0] + pieces[1..];
  }

  /** Joining pieces whose first one is not empty starts with that piece's
      first character, followed by the join with it removed. */
  lemma JoinFirstChar(pieces: seq<string>, sep: char)
    requires |pieces| >= 2 && |pieces[0]| > 0
    ensures Join(pieces, sep) == [pieces[0][0]] + Join([pieces[0][1..]] + pieces[1..], sep)
  {
    var p0 := pieces[0];
    var shorter := [p0[1..]] + pieces[1..];
    assert shorter[0] == p0[1..] && shorter[1..] == pieces[1..];
    assert p0 == [p0[0]] + p0[1..];
  }

  /** A text without the separator splits into itself. */
  lemma {:induction false} SplitNoSeparator(s: string, sep: char)
    requires sep !in s
    ensures Split(s, sep) == [s]
  {
    if |s| > 0 {
      assert sep !in s[1..] by {
        assert forall c :: c in s[1..] ==> c in s;
      }
      SplitNoSeparator(s[1..], sep);
      assert s[0] in s;
      assert [s[0]] + s[1..] == s;
    }
  }
}
