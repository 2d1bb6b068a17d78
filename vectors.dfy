/**
 * Sums over index ranges of real vectors, shared by the solvers.
 *
 * C `double` is modelled as `real`, so every sum here is exact. Ranges are
 * inclusive, `m..n`, as in the C loops `for (i = m; i <= n; i++)`, and are
 * accumulated from `m` upwards; an empty range (`n < m`) sums to 0.
 *
 * A range sum is the sum over the slice `a[m..n + 1]`, so that a sum whose
 * bounds are constants (`1..N`) is not unrolled term by term.
 */
module Vectors {

  function Abs(v: real): (r: real)
    ensures r >= 0.0 && (r == v || r == -v)
  {
    if v < 0.0 then -v else v
  }

  /** Sum of `x[k] * y[k]` over two equally long sequences, left to right. */
  function Dot(x: seq<real>, y: seq<real>): real
    requires |x| == |y|
  {
    if |x| == 0 then 0.0 else Dot(x[..|x| - 1], y[..|y| - 1]) + x[|x| - 1] * y[|y| - 1]
  }

  /** Sum of `|x[k]|` over the whole sequence, left to right. */
  function SumAbs(x: seq<real>): (r: real)
    ensures r >= 0.0
  {
    if |x| == 0 then 0.0 else SumAbs(x[..|x| - 1]) + Abs(x[|x| - 1])
  }

  /** Sum of `a[i] * b[i]` for `i` in `m..n`. */
  function Inner(a: seq<real>, b: seq<real>, m: int, n: int): real
    requires m <= n ==> 0 <= m && n < |a| && n < |b|
  {
    if n < m then 0.0 else Dot(a[m..n + 1], b[m..n + 1])
  }

  /** Sum of `|a[i]|` for `i` in `m..n`: the 1-norm of that slice. */
  function Norm1(a: seq<real>, m: int, n: int): (r: real)
    requires m <= n ==> 0 <= m && n < |a|
    ensures r >= 0.0
  {
    if n < m then 0.0 else SumAbs(a[m..n + 1])
  }

  /** Extending a range by one index adds one term: the accumulation step of the C loops. */
  lemma InnerStep(a: seq<real>, b: seq<real>, m: int, n: int)
    requires 0 <= m <= n < |a| && n < |b|
    ensures Inner(a, b, m, n) == Inner(a, b, m, n - 1) + a[n] * b[n]
  {
    var x, y := a[m..n + 1], b[m..n + 1];
    assert x[..n - m] == a[m..n] && y[..n - m] == b[m..n];
    assert x[n - m] == a[n] && y[n - m] == b[n];
    assert Dot(x, y) == Dot(x[..n - m], y[..n - m]) + x[n - m] * y[n - m];
  }

  /** Extending a range by one index adds one absolute value. */
  lemma Norm1Step(a: seq<real>, m: int, n: int)
    requires 0 <= m <= n < |a|
    ensures Norm1(a, m, n) == Norm1(a, m, n - 1) + Abs(a[n])
  {
    var x := a[m..n + 1];
    assert x[..|x| - 1] == a[m..n] && x[|x| - 1] == a[n];
    assert SumAbs(x) == SumAbs(a[m..n]) + Abs(a[n]);
    if n - 1 < m {
      assert a[m..n] == [];
    }
  }

  lemma {:induction false} DotSymmetric(x: seq<real>, y: seq<real>)
    requires |x| == |y|
    ensures Dot(x, y) == Dot(y, x)
  {
    if |x| > 0 {
      DotSymmetric(x[..|x| - 1], y[..|y| - 1]);
    }
  }

  /** The inner product is symmetric. */
  lemma InnerSymmetric(a: seq<real>, b: seq<real>, m: int, n: int)
    requires m <= n ==> 0 <= m && n < |a| && n < |b|
    ensures Inner(a, b, m, n) == Inner(b, a, m, n)
  {
    if m <= n {
      DotSymmetric(a[m..n + 1], b[m..n + 1]);
    }
  }

  /** The inner product only looks at the entries in `m..n`. */
  lemma InnerFrame(a: seq<real>, b: seq<real>, a': seq<real>, b': seq<real>, m: int, n: int)
    requires m <= n ==> 0 <= m && n < |a| && n < |b| && n < |a'| && n < |b'|
    requires forall i :: m <= i <= n ==> a[i] == a'[i] && b[i] == b'[i]
    ensures Inner(a, b, m, n) == Inner(a', b', m, n)
  {
    if m <= n {
      assert a[m..n + 1] == a'[m..n + 1];
      assert b[m..n + 1] == b'[m..n + 1];
    }
  }

  /** The 1-norm only looks at the entries in `m..n`. */
  lemma Norm1Frame(a: seq<real>, a': seq<real>, m: int, n: int)
    requires m <= n ==> 0 <= m && n < |a| && n < |a'|
    requires forall i :: m <= i <= n ==> a[i] == a'[i]
    ensures Norm1(a, m, n) == Norm1(a', m, n)
  {
    if m <= n {
      assert a[m..n + 1] == a'[m..n + 1];
    }
  }

  lemma {:induction false} DotLinear(a: seq<real>, x: seq<real>, c: real, v: seq<real>, y: seq<real>)
    requires |a| == |x| == |v| == |y|
    requires forall k :: 0 <= k < |y| ==> y[k] == x[k] + c * v[k]
    ensures Dot(a, y) == Dot(a, x) + c * Dot(a, v)
  {
    if |a| > 0 {
      var l := |a| - 1;
      PrefixCombination(x, c, v, y, l);
      DotLinear(a[..l], x[..l], c, v[..l], y[..l]);
      Combine(Dot(a[..l], y[..l]), Dot(a[..l], x[..l]), Dot(a[..l], v[..l]), a[l], x[l], v[l], y[l], c);
    }
  }

  /** A prefix of `y = x + c * v` is the same combination of the prefixes. */
  lemma PrefixCombination(x: seq<real>, c: real, v: seq<real>, y: seq<real>, l: int)
    requires |x| == |v| == |y| && 0 <= l <= |y|
    requires forall k :: 0 <= k < |y| ==> y[k] == x[k] + c * v[k]
    ensures forall k :: 0 <= k < l ==> y[..l][k] == x[..l][k] + c * v[..l][k]
  {
  }

  /** One more term on each side keeps `y = x + c * v` for the sums. */
  lemma Combine(dy: real, dx: real, dv: real, al: real, xl: real, vl: real, yl: real, c: real)
    requires dy == dx + c * dv && yl == xl + c * vl
    ensures dy + al * yl == (dx + al * xl) + c * (dv + al * vl)
  {
  }

  /**
   * Linearity in the second argument: if `y` is `x + c * v` on `m..n`, the
   * inner products follow.
   */
  lemma InnerLinear(a: seq<real>, x: seq<real>, c: real, v: seq<real>, y: seq<real>, m: int, n: int)
    requires m <= n ==> 0 <= m && n < |a| && n < |x| && n < |v| && n < |y|
    requires forall i :: m <= i <= n ==> y[i] == x[i] + c * v[i]
    ensures Inner(a, y, m, n) == Inner(a, x, m, n) + c * Inner(a, v, m, n)
  {
    if m <= n {
      DotLinear(a[m..n + 1], x[m..n + 1], c, v[m..n + 1], y[m..n + 1]);
    }
  }

  lemma {:induction false} DotZero(x: seq<real>, z: seq<real>)
    requires |x| == |z|
    requires forall k :: 0 <= k < |z| ==> z[k] == 0.0
    ensures Dot(x, z) == 0.0
  {
    if |x| > 0 {
      DotZero(x[..|x| - 1], z[..|z| - 1]);
    }
  }

  /** An inner product with a vector that is zero on `m..n` is zero. */
  lemma InnerZero(a: seq<real>, z: seq<real>, m: int, n: int)
    requires m <= n ==> 0 <= m && n < |a| && n < |z|
    requires forall i :: m <= i <= n ==> z[i] == 0.0
    ensures Inner(a, z, m, n) == 0.0
  {
    if m <= n {
      DotZero(a[m..n + 1], z[m..n + 1]);
    }
  }

  lemma {:induction false} SumAbsZero(x: seq<real>)
    requires forall k :: 0 <= k < |x| ==> x[k] == 0.0
    ensures SumAbs(x) == 0.0
  {
    if |x| > 0 {
      SumAbsZero(x[..|x| - 1]);
    }
  }

  /**
   * `x . y` with `y` equal to `x` entry by entry is a sum of squares:
   * non-negative, and positive once some entry is nonzero.
   */
  lemma {:induction false} DotSelfPositive(x: seq<real>, y: seq<real>)
    requires |x| == |y| && forall k :: 0 <= k < |x| ==> x[k] == y[k]
    ensures Dot(x, y) >= 0.0
    ensures (exists k :: 0 <= k < |x| && x[k] != 0.0) ==> Dot(x, y) > 0.0
  {
    if |x| > 0 {
      DotSelfPositive(x[..|x| - 1], y[..|y| - 1]);
      SameSignProduct(x[|x| - 1], y[|y| - 1]);
      if exists k :: 0 <= k < |x| && x[k] != 0.0 {
        var k :| 0 <= k < |x| && x[k] != 0.0;
        if k < |x| - 1 {
          assert x[..|x| - 1][k] != 0.0;
        }
      }
    }
  }

  /** The product of a real with itself is non-negative, and positive unless the real is zero. */
  lemma SameSignProduct(u: real, v: real)
    requires u == v
    ensures u * v >= 0.0
    ensures u != 0.0 ==> u * v > 0.0
  {
    if u > 0.0 {
      PositiveProduct(u, v);
    } else if u < 0.0 {
      PositiveProduct(-u, -v);
      assert (-u) * (-v) == u * v;
    }
  }

  /** The product of two positive reals is positive. */
  lemma PositiveProduct(u: real, v: real)
    requires u > 0.0 && v > 0.0
    ensures u * v > 0.0
  {
  }

  /** `Inner(v, v, m, n)` is zero only when `v` is zero on `m..n`. */
  lemma InnerSelfZero(v: seq<real>, m: int, n: int)
    requires m <= n ==> 0 <= m && n < |v|
    requires Inner(v, v, m, n) == 0.0
    ensures forall i :: m <= i <= n ==> v[i] == 0.0
  {
    if m <= n {
      var s := v[m..n + 1];
      DotSelfPositive(s, s);
      assert forall i :: m <= i <= n ==> v[i] == s[i - m];
    }
  }

  /** The 1-norm of a zero slice is zero. */
  lemma Norm1Zero(a: seq<real>, m: int, n: int)
    requires m <= n ==> 0 <= m && n < |a|
    requires forall i :: m <= i <= n ==> a[i] == 0.0
    ensures Norm1(a, m, n) == 0.0
  {
    if m <= n {
      SumAbsZero(a[m..n + 1]);
    }
  }

  lemma {:induction false} SumAbsBounds(x: seq<real>, k: int)
    requires 0 <= k < |x|
    ensures Abs(x[k]) <= SumAbs(x)
  {
    if k < |x| - 1 {
      SumAbsBounds(x[..|x| - 1], k);
    }
  }

  /** Each entry is bounded by the 1-norm, so a 1-norm below a bound bounds every entry. */
  lemma Norm1Bounds(a: seq<real>, m: int, n: int, k: int)
    requires 0 <= m <= k <= n < |a|
    ensures Abs(a[k]) <= Norm1(a, m, n)
  {
    SumAbsBounds(a[m..n + 1], k - m);
  }

  /** Dividing by a nonzero `c` and multiplying back gives the dividend: a back-substitution row holds exactly. */
  lemma DivCancel(c: real, t: real)
    requires c != 0.0
    ensures c * (t / c) == t
  {
  }

  /** The rows of a two-dimensional array, as sequences. */
  ghost function Rows(a: array2<real>): (m: seq<seq<real>>)
    reads a
    ensures |m| == a.Length0
    ensures forall i :: 0 <= i < a.Length0 ==> |m[i]| == a.Length1
    ensures forall i, j :: 0 <= i < a.Length0 && 0 <= j < a.Length1 ==> m[i][j] == a[i, j]
  {
    seq(a.Length0, i reads a => seq(a.Length1, j reads a =>
      if 0 <= i < a.Length0 && 0 <= j < a.Length1 then a[i, j] else 0.0))
  }

  /** `m` has `r` rows of `c` entries each. */
  ghost predicate Shaped(m: seq<seq<real>>, r: int, c: int)
  {
    |m| == r && forall i :: 0 <= i < |m| ==> |m[i]| == c
  }

  /** The array holds the matrix `m`, entry for entry. */
  ghost predicate Holds(a: array2<real>, m: seq<seq<real>>)
    reads a
    requires Shaped(m, a.Length0, a.Length1)
  {
    forall i, j :: 0 <= i < a.Length0 && 0 <= j < a.Length1 ==> a[i, j] == m[i][j]
  }

  lemma HoldsRows(a: array2<real>)
    ensures Shaped(Rows(a), a.Length0, a.Length1) && Holds(a, Rows(a))
  {
  }

  /** An array holding `m` has `m` as its rows. */
  lemma {:induction false} HoldsIsRows(a: array2<real>, m: seq<seq<real>>)
    requires Shaped(m, a.Length0, a.Length1) && Holds(a, m)
    ensures Rows(a) == m
  {
    forall i | 0 <= i < a.Length0
      ensures Rows(a)[i] == m[i]
    {
      assert forall j :: 0 <= j < a.Length1 ==> Rows(a)[i][j] == m[i][j];
    }
  }
}
