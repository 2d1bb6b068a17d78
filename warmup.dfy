/**
 * The integer warm-up programs of 0_kadai: the primality decision (3.c),
 * vector addition (4.c), the dot product (5.c), the matrix-vector product
 * (6.c), the matrix product (7.c) and the row vector a^T (AB) (8.c).
 *
 * Each program reads its operands with `scanf` into freshly allocated
 * buffers, runs one loop nest and prints the result; the model keeps the loop
 * nest as a method over Dafny arrays and states its result against the
 * recursive sums below. C `int` is modelled by the unbounded `int`.
 */
module Warmup {

  // ---------------------------------------------------------------------
  // Specification: sums, columns, products

  /** The dot product x . y, summed left to right as the loops do. */
  function Dot(x: seq<int>, y: seq<int>): int
    requires |x| == |y|
  {
    if x == [] then 0 else Dot(x[..|x| - 1], y[..|y| - 1]) + x[|x| - 1] * y[|y| - 1]
  }

  /** One more step of the accumulation loop. */
  lemma DotStep(x: seq<int>, y: seq<int>, k: nat)
    requires |x| == |y| && k < |x|
    ensures Dot(x[..k + 1], y[..k + 1]) == Dot(x[..k], y[..k]) + x[k] * y[k]
  {
    assert x[..k + 1][..k] == x[..k];
    assert y[..k + 1][..k] == y[..k];
  }

  lemma {:induction false} DotSymmetric(x: seq<int>, y: seq<int>)
    requires |x| == |y|
    ensures Dot(x, y) == Dot(y, x)
  {
    if x != [] {
      DotSymmetric(x[..|x| - 1], y[..|y| - 1]);
    }
  }

  lemma {:induction false} DotZeroRight(x: seq<int>, y: seq<int>)
    requires |x| == |y|
    requires forall k :: 0 <= k < |y| ==> y[k] == 0
    ensures Dot(x, y) == 0
  {
    if x != [] {
      DotZeroRight(x[..|x| - 1], y[..|y| - 1]);
    }
  }

  /** The k-th unit vector of length n. */
  function Unit(n: nat, k: nat): (e: seq<int>)
    ensures |e| == n
  {
    seq(n, t => if t == k then 1 else 0)
  }

  /** Dotting with a unit vector picks one entry. */
  lemma {:induction false} DotUnitLeft(n: nat, k: nat, y: seq<int>)
    requires k < n == |y|
    ensures Dot(Unit(n, k), y) == y[k]
  {
    DotUnitPrefix(n, k, y, n);
    assert Unit(n, k)[..n] == Unit(n, k) && y[..n] == y;
  }

  lemma {:induction false} DotUnitPrefix(n: nat, k: nat, y: seq<int>, p: nat)
    requires k < n == |y| && p <= n
    ensures Dot(Unit(n, k)[..p], y[..p]) == if k < p then y[k] else 0
  {
    if p > 0 {
      DotUnitPrefix(n, k, y, p - 1);
      DotStep(Unit(n, k), y, p - 1);
    }
  }

  /** The vector u + c v. */
  function AddScaled(u: seq<int>, c: int, v: seq<int>): (w: seq<int>)
    requires |u| == |v|
    ensures |w| == |u| && forall k :: 0 <= k < |u| ==> w[k] == u[k] + c * v[k]
  {
    seq(|u|, k requires 0 <= k < |u| => u[k] + c * v[k])
  }

  /** Dot product distributes over u + c v in its left operand. */
  lemma {:induction false} DotAddScaledLeft(u: seq<int>, c: int, v: seq<int>, y: seq<int>)
    requires |u| == |v| == |y|
    ensures Dot(AddScaled(u, c, v), y) == Dot(u, y) + c * Dot(v, y)
  {
    if u != [] {
      var n := |u| - 1;
      var w := AddScaled(u, c, v);
      assert w[..n] == AddScaled(u[..n], c, v[..n]);
      DotAddScaledLeft(u[..n], c, v[..n], y[..n]);
      ScaledSum(Dot(u[..n], y[..n]), Dot(v[..n], y[..n]), Dot(w[..n], y[..n]), u[n], v[n], y[n], c);
    }
  }

  /** The last step of `DotAddScaledLeft`, as arithmetic on the partial sums. */
  lemma ScaledSum(du: int, dv: int, dw: int, un: int, vn: int, yn: int, c: int)
    requires dw == du + c * dv
    ensures dw + (un + c * vn) * yn == (du + un * yn) + c * (dv + vn * yn)
  {
    assert (un + c * vn) * yn == un * yn + c * (vn * yn);
  }

  /** `m` is a matrix with the given numbers of rows and columns. */
  ghost predicate IsMatrix(m: seq<seq<int>>, rows: nat, cols: nat)
  {
    |m| == rows && forall i :: 0 <= i < rows ==> |m[i]| == cols
  }

  /** Column j of a matrix. */
  function Col(m: seq<seq<int>>, j: nat): (c: seq<int>)
    requires forall i :: 0 <= i < |m| ==> j < |m[i]|
    ensures |c| == |m| && forall i :: 0 <= i < |m| ==> c[i] == m[i][j]
  {
    seq(|m|, i requires 0 <= i < |m| => m[i][j])
  }

  /** The matrix-vector product m x. */
  function MatVec(m: seq<seq<int>>, x: seq<int>): (r: seq<int>)
    requires forall i :: 0 <= i < |m| ==> |m[i]| == |x|
    ensures |r| == |m| && forall i :: 0 <= i < |m| ==> r[i] == Dot(m[i], x)
  {
    seq(|m|, i requires 0 <= i < |m| => Dot(m[i], x))
  }

  /** The row vector a^T m of a matrix with `cols` columns. */
  function VecMat(a: seq<int>, m: seq<seq<int>>, cols: nat): (r: seq<int>)
    requires IsMatrix(m, |a|, cols)
    ensures |r| == cols && forall k :: 0 <= k < cols ==> r[k] == Dot(a, Col(m, k))
  {
    seq(cols, k requires 0 <= k < cols => Dot(a, Col(m, k)))
  }

  ghost predicate IsIdentity(m: seq<seq<int>>, n: nat)
  {
    IsMatrix(m, n, n) && forall i, j :: 0 <= i < n && 0 <= j < n ==> m[i][j] == if i == j then 1 else 0
  }

  /** The entries of a two-dimensional array, row by row. */
  ghost function Entries(a: array2<int>): (m: seq<seq<int>>)
    reads a
    ensures IsMatrix(m, a.Length0, a.Length1)
    ensures forall i, j :: 0 <= i < a.Length0 && 0 <= j < a.Length1 ==> m[i][j] == a[i, j]
  {
    seq(a.Length0, i reads a => seq(a.Length1, j reads a =>
      if 0 <= i < a.Length0 && 0 <= j < a.Length1 then a[i, j] else 0))
  }

  // ---------------------------------------------------------------------
  // Properties of the products

  /** The product with the zero vector is the zero vector. */
  lemma MatVecZero(m: seq<seq<int>>, x: seq<int>)
    requires forall i :: 0 <= i < |m| ==> |m[i]| == |x|
    requires forall k :: 0 <= k < |x| ==> x[k] == 0
    ensures forall i :: 0 <= i < |m| ==> MatVec(m, x)[i] == 0
  {
    forall i | 0 <= i < |m| {
      DotZeroRight(m[i], x);
    }
  }

  /** The identity matrix leaves a vector unchanged. */
  lemma MatVecIdentity(m: seq<seq<int>>, x: seq<int>)
    requires IsIdentity(m, |x|)
    ensures MatVec(m, x) == x
  {
    forall i | 0 <= i < |x|
      ensures MatVec(m, x)[i] == x[i]
    {
      assert m[i] == Unit(|x|, i);
      DotUnitLeft(|x|, i, x);
    }
  }

  /** Multiplying by the identity on the left leaves every entry of B. */
  lemma MatMulIdentity(ma: seq<seq<int>>, mb: seq<seq<int>>, n: nat, m: nat)
    requires IsIdentity(ma, n) && IsMatrix(mb, n, m)
    ensures forall i, j :: 0 <= i < n && 0 <= j < m ==> Dot(ma[i], Col(mb, j)) == mb[i][j]
  {
    forall i, j | 0 <= i < n && 0 <= j < m
      ensures Dot(ma[i], Col(mb, j)) == mb[i][j]
    {
      assert ma[i] == Unit(n, i);
      DotUnitLeft(n, i, Col(mb, j));
    }
  }

  /** a . (M y) == (a^T M) . y: the reassociation behind 8.c. */
  lemma {:induction false} Reassociate(a: seq<int>, m: seq<seq<int>>, cols: nat, y: seq<int>)
    requires IsMatrix(m, |a|, cols) && |y| == cols
    ensures Dot(a, MatVec(m, y)) == Dot(VecMat(a, m, cols), y)
  {
    if a != [] {
      var n := |a| - 1;
      var a', m' := a[..n], m[..n];
      Reassociate(a', m', cols, y);
      assert MatVec(m, y)[..n] == MatVec(m', y);
      var u := VecMat(a', m', cols);
      var w := AddScaled(u, a[n], m[n]);
      forall k | 0 <= k < cols
        ensures VecMat(a, m, cols)[k] == w[k]
      {
        assert Col(m, k)[..n] == Col(m', k);
        assert a[..n] == a';
      }
      assert VecMat(a, m, cols) == w;
      DotAddScaledLeft(u, a[n], m[n], y);
      var mv := MatVec(m, y);
      calc {
        Dot(a, mv);
        Dot(a', mv[..n]) + a[n] * mv[n];
        Dot(a', MatVec(m', y)) + a[n] * Dot(m[n], y);
        Dot(u, y) + a[n] * Dot(m[n], y);
        Dot(w, y);
      }
    } else {
      var v := VecMat(a, m, cols);
      DotZeroRight(y, v);
      DotSymmetric(y, v);
    }
  }

  // ---------------------------------------------------------------------
  // 3.c: the primality decision of `main`

  ghost predicate IsPrime(n: int)
  {
    n >= 2 && forall d :: 2 <= d < n ==> n % d != 0
  }

  /** A divisor of an odd number is odd. */
  lemma DivisorOfOddIsOdd(n: int, d: int)
    requires d >= 2 && n % d == 0 && n % 2 != 0
    ensures d % 2 != 0
  {
    var q, e := n / d, d / 2;
    assert n == d * q;
    assert d == 2 * e + d % 2;
    assert n == 2 * (e * q) + (d % 2) * q;
  }

  /** An odd n >= 3 with no odd divisor in [3, n-1) has no divisor in [2, n). */
  lemma OddWithoutOddFactorIsPrime(n: int)
    requires n >= 3 && n % 2 != 0 && !HasOddFactor(n)
    ensures IsPrime(n)
  {
    forall d | 2 <= d < n
      ensures n % d != 0
    {
      if n % d == 0 {
        DivisorOfOddIsOdd(n, d);
      }
    }
  }

  /** Some odd i with 3 <= i < n-1 divides n: the loop of `main` finds a factor. */
  ghost predicate HasOddFactor(n: int)
  {
    exists i :: 3 <= i < n - 1 && i % 2 == 1 && n % i == 0
  }

  /**
   * The decision `main` prints: 2 is prime; 1 and even numbers are not;
   * otherwise n is prime unless an odd i with 3 <= i < n-1 divides it.
   * For n >= 1 the decision is exact; a negative odd n is reported prime
   * because the loop does not run.
   */
  method ReportPrime(n: int) returns (prime: bool)
    ensures n == 2 ==> prime
    ensures n == 1 || (n != 2 && n % 2 == 0) ==> !prime
    ensures n >= 3 && n % 2 != 0 ==> (prime <==> !HasOddFactor(n))
    ensures n >= 1 ==> (prime <==> IsPrime(n))
    ensures n < 0 && n % 2 != 0 ==> prime
  {
    if n == 2 {
      return true;
    }
    if n == 1 || n % 2 == 0 {
      assert n >= 4 ==> 2 <= 2 < n && n % 2 == 0;
      return false;
    }
    var i := 3;
    while i < n - 1
      invariant 3 <= i && i % 2 == 1
      invariant forall t :: 3 <= t < i && t % 2 == 1 ==> n % t != 0
    {
      if n % i == 0 {
        assert 2 <= i < n;
        return false;
      }
      i := i + 2;
    }
    if n >= 3 {
      OddWithoutOddFactorIsPrime(n);
    }
    return true;
  }

  // ---------------------------------------------------------------------
  // 4.c: element-wise vector addition

  function VecAdd(x: seq<int>, y: seq<int>): (r: seq<int>)
    requires |x| == |y|
    ensures |r| == |x| && forall i :: 0 <= i < |x| ==> r[i] == x[i] + y[i]
  {
    seq(|x|, i requires 0 <= i < |x| => x[i] + y[i])
  }

  lemma VecAddCommutes(x: seq<int>, y: seq<int>)
    requires |x| == |y|
    ensures VecAdd(x, y) == VecAdd(y, x)
  {
  }

  lemma VecAddZero(x: seq<int>, z: seq<int>)
    requires |x| == |z| && forall i :: 0 <= i < |z| ==> z[i] == 0
    ensures VecAdd(x, z) == x
  {
  }

  /** The loop `result[i] = a[i] + b[i]` into a fresh buffer of length n. */
  method VectorAdd(a: array<int>, b: array<int>) returns (result: array<int>)
    requires a.Length == b.Length
    ensures fresh(result) && result.Length == a.Length
    ensures result[..] == VecAdd(a[..], b[..])
  {
    result := new int[a.Length];
    for i := 0 to a.Length
      invariant forall k :: 0 <= k < i ==> result[k] == a[k] + b[k]
    {
      result[i] := a[i] + b[i];
    }
  }

  // ---------------------------------------------------------------------
  // 5.c: the dot product loop

  method DotProduct(a: array<int>, b: array<int>) returns (dot: int)
    requires a.Length == b.Length
    ensures dot == Dot(a[..], b[..])
    ensures dot == Dot(b[..], a[..])
    ensures a.Length == 0 ==> dot == 0
  {
    dot := 0;
    for i := 0 to a.Length
      invariant dot == Dot(a[..i], b[..i])
    {
      DotStep(a[..], b[..], i);
      assert a[..][..i] == a[..i] && b[..][..i] == b[..i];
      assert a[..][..i + 1] == a[..i + 1] && b[..][..i + 1] == b[..i + 1];
      dot := dot + a[i] * b[i];
    }
    assert a[..a.Length] == a[..] && b[..b.Length] == b[..];
    DotSymmetric(a[..], b[..]);
  }

  // ---------------------------------------------------------------------
  // 6.c: the matrix-vector loop

  method MatrixVector(A: array2<int>, a: array<int>) returns (result: array<int>)
    requires A.Length0 == A.Length1 == a.Length
    ensures fresh(result) && result.Length == a.Length
    ensures result[..] == MatVec(Entries(A), a[..])
  {
    var n := a.Length;
    ghost var m := Entries(A);
    result := new int[n];
    for i := 0 to n
      invariant forall k :: 0 <= k < i ==> result[k] == Dot(m[k], a[..])
    {
      AccumulateRow(A, a, result, i);
    }
  }

  /** The inner loop of 6.c: `result[i] = 0; result[i] += A[i][j] * a[j]` over j. */
  method AccumulateRow(A: array2<int>, a: array<int>, result: array<int>, i: nat)
    requires A.Length0 == A.Length1 == a.Length == result.Length && i < a.Length && result != a
    modifies result
    ensures result[i] == Dot(Entries(A)[i], a[..])
    ensures forall k :: 0 <= k < result.Length && k != i ==> result[k] == old(result[k])
  {
    var n := a.Length;
    ghost var r, x := Entries(A)[i], a[..];
    result[i] := 0;
    for j := 0 to n
      invariant forall k :: 0 <= k < result.Length && k != i ==> result[k] == old(result[k])
      invariant result[i] == Dot(r[..j], x[..j])
    {
      DotStep(r, x, j);
      result[i] := result[i] + A[i, j] * a[j];
    }
    assert r[..n] == r && x[..n] == x;
  }

  // ---------------------------------------------------------------------
  // 7.c: the matrix product loop; 8.c runs the same loop nest first

  /** The product of an n-row matrix and a matrix with m columns, entry by entry. */
  function Product(ma: seq<seq<int>>, mb: seq<seq<int>>, m: nat): (p: seq<seq<int>>)
    requires forall i :: 0 <= i < |ma| ==> |ma[i]| == |mb|
    requires IsMatrix(mb, |mb|, m)
    ensures IsMatrix(p, |ma|, m)
    ensures forall i, j :: 0 <= i < |ma| && 0 <= j < m ==> p[i][j] == Dot(ma[i], Col(mb, j))
  {
    seq(|ma|, i requires 0 <= i < |ma| => seq(m, j requires 0 <= j < m => Dot(ma[i], Col(mb, j))))
  }

  method MatrixProduct(A: array2<int>, B: array2<int>) returns (AB: array2<int>)
    requires A.Length0 == A.Length1 == B.Length0
    ensures fresh(AB) && AB.Length0 == A.Length0 && AB.Length1 == B.Length1
    ensures Entries(AB) == Product(Entries(A), Entries(B), B.Length1)
  {
    var n, m := A.Length0, B.Length1;
    ghost var P := Product(Entries(A), Entries(B), m);
    AB := new int[n, m];
    for i := 0 to n
      invariant forall p, q :: 0 <= p < i && 0 <= q < m ==> AB[p, q] == P[p][q]
    {
      ProductRow(A, B, AB, i, P);
    }
    SameEntries(AB, P);
  }

  /** The middle loop of the product: row `i` of AB, entry by entry. */
  method ProductRow(A: array2<int>, B: array2<int>, AB: array2<int>, i: nat, ghost P: seq<seq<int>>)
    requires A.Length0 == A.Length1 == B.Length0 == AB.Length0
    requires AB.Length1 == B.Length1 && i < AB.Length0 && AB != A && AB != B
    requires P == Product(Entries(A), Entries(B), B.Length1)
    modifies AB
    ensures forall q :: 0 <= q < AB.Length1 ==> AB[i, q] == P[i][q]
    ensures forall p, q :: 0 <= p < AB.Length0 && 0 <= q < AB.Length1 && p != i ==> AB[p, q] == old(AB[p, q])
  {
    for j := 0 to AB.Length1
      invariant forall q :: 0 <= q < j ==> AB[i, q] == P[i][q]
      invariant forall p, q :: 0 <= p < AB.Length0 && 0 <= q < AB.Length1 && p != i ==> AB[p, q] == old(AB[p, q])
    {
      AccumulateEntry(A, B, AB, i, j);
    }
  }

  /** The innermost loop of the product: `AB[i][j] = 0; AB[i][j] += A[i][k] * B[k][j]` over k. */
  method AccumulateEntry(A: array2<int>, B: array2<int>, AB: array2<int>, i: nat, j: nat)
    requires A.Length0 == A.Length1 == B.Length0 == AB.Length0
    requires AB.Length1 == B.Length1 && i < AB.Length0 && j < AB.Length1
    requires AB != A && AB != B
    modifies AB
    ensures AB[i, j] == Dot(Entries(A)[i], Col(Entries(B), j))
    ensures forall p, q :: 0 <= p < AB.Length0 && 0 <= q < AB.Length1 && (p != i || q != j) ==>
      AB[p, q] == old(AB[p, q])
  {
    var n := A.Length0;
    ghost var r, c := Entries(A)[i], Col(Entries(B), j);
    AB[i, j] := 0;
    for k := 0 to n
      invariant forall p, q :: 0 <= p < AB.Length0 && 0 <= q < AB.Length1 && (p != i || q != j) ==>
        AB[p, q] == old(AB[p, q])
      invariant AB[i, j] == Dot(r[..k], c[..k])
    {
      DotStep(r, c, k);
      AB[i, j] := AB[i, j] + A[i, k] * B[k, j];
    }
    assert r[..n] == r && c[..n] == c;
  }

  /** An array whose every entry matches a matrix of its shape has that matrix as its entries. */
  lemma SameEntries(a: array2<int>, m: seq<seq<int>>)
    requires IsMatrix(m, a.Length0, a.Length1)
    requires forall i, j :: 0 <= i < a.Length0 && 0 <= j < a.Length1 ==> a[i, j] == m[i][j]
    ensures Entries(a) == m
  {
    var e := Entries(a);
    forall i | 0 <= i < a.Length0
      ensures e[i] == m[i]
    {
    }
  }

  /** 7.c with A the identity: the product is B. */
  lemma IdentityProduct(ma: seq<seq<int>>, mb: seq<seq<int>>, n: nat, m: nat)
    requires IsIdentity(ma, n) && IsMatrix(mb, n, m)
    ensures Product(ma, mb, m) == mb
  {
    MatMulIdentity(ma, mb, n, m);
    var p := Product(ma, mb, m);
    forall i | 0 <= i < n
      ensures p[i] == mb[i]
    {
    }
  }

  /**
   * 8.c: AB = A B by the loop nest of 7.c, then `result[j] = sum_i a[i] AB[i][j]`.
   * The result equals (a^T A) B.
   */
  method ATransposeAB(a: array<int>, A: array2<int>, B: array2<int>)
    returns (AB: array2<int>, result: array<int>)
    requires A.Length0 == A.Length1 == a.Length == B.Length0
    ensures fresh(AB) && fresh(result)
    ensures Entries(AB) == Product(Entries(A), Entries(B), B.Length1)
    ensures result[..] == VecMat(a[..], Entries(AB), B.Length1)
    ensures result[..] == VecMat(VecMat(a[..], Entries(A), a.Length), Entries(B), B.Length1)
  {
    AB := MatrixProduct(A, B);
    result := RowTimesMatrix(a, AB);
    AssociatedRow(a[..], Entries(A), Entries(B), B.Length1);
  }

  /** The second loop nest of 8.c: `result[j]` accumulates `a[i] * AB[i][j]` over i. */
  method RowTimesMatrix(a: array<int>, AB: array2<int>) returns (result: array<int>)
    requires AB.Length0 == a.Length
    ensures fresh(result)
    ensures result[..] == VecMat(a[..], Entries(AB), AB.Length1)
  {
    var m := AB.Length1;
    ghost var va, E := a[..], Entries(AB);
    ghost var R := VecMat(va, E, m);
    result := new int[m];
    for j := 0 to m
      invariant forall q :: 0 <= q < j ==> result[q] == R[q]
    {
      var s := ColumnDot(a, AB, j);
      assert s == R[j];
      result[j] := s;
    }
    assert result[..] == R;
  }

  /** The inner loop of the second nest: the sum of `a[i] * AB[i][j]` over i. */
  method ColumnDot(a: array<int>, AB: array2<int>, j: nat) returns (s: int)
    requires AB.Length0 == a.Length && j < AB.Length1
    ensures s == Dot(a[..], Col(Entries(AB), j))
  {
    var n := a.Length;
    ghost var va, c := a[..], Col(Entries(AB), j);
    s := 0;
    for i := 0 to n
      invariant s == Dot(va[..i], c[..i])
    {
      DotStep(va, c, i);
      s := s + a[i] * AB[i, j];
    }
    assert va[..n] == va && c[..n] == c;
  }

  /** (a^T A) B == a^T (A B), column by column. */
  lemma AssociatedRow(a: seq<int>, ma: seq<seq<int>>, mb: seq<seq<int>>, m: nat)
    requires IsMatrix(ma, |a|, |a|) && IsMatrix(mb, |a|, m)
    ensures VecMat(a, Product(ma, mb, m), m) == VecMat(VecMat(a, ma, |a|), mb, m)
  {
    var p := Product(ma, mb, m);
    forall j | 0 <= j < m
      ensures VecMat(a, p, m)[j] == VecMat(VecMat(a, ma, |a|), mb, m)[j]
    {
      assert Col(p, j) == MatVec(ma, Col(mb, j));
      Reassociate(a, ma, |a|, Col(mb, j));
    }
  }
}
