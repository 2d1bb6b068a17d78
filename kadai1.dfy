/**
 * The dense matrix-vector product program of 1_kadai/1.c: the dimension is
 * the number of lines of the vector file, the matrix file holds the matrix
 * row by row, and `c = A b` is computed with a double loop.
 *
 * Files are modelled as the numbers `fscanf` would read from them, in order;
 * running out of numbers is the `EOF` error path.
 */
module FileMatVec {
  import opened Vectors
  import opened Arith

  /**
   * Entry `(i, j)` of the square array `A` is number `RowStart(i, n) + j`,
   * that is `i * n + j` (`RowStartIsProduct`), of `tokens`.
   */
  ghost predicate RowMajor(A: array2<real>, tokens: seq<real>)
    reads A
  {
    var n := A.Length0;
    A.Length1 == n &&
    forall i, j :: 0 <= i < n && 0 <= j < n ==>
      RowStart(i, n) + j < |tokens| && A[i, j] == tokens[RowStart(i, n) + j]
  }

  /** In a row-major fill, entry `(i, j)` is number `i * n + j`. */
  lemma RowMajorEntry(A: array2<real>, tokens: seq<real>, i: int, j: int)
    requires RowMajor(A, tokens)
    requires 0 <= i < A.Length0 && 0 <= j < A.Length0
    ensures i * A.Length0 + j < |tokens| && A[i, j] == tokens[i * A.Length0 + j]
  {
    var n := A.Length0;
    RowStartIsProduct(i, n);
    assert RowStart(i, n) + j < |tokens| && A[i, j] == tokens[RowStart(i, n) + j];
  }

  /**
   * `File_read`: fills `A` row by row from the matrix file's numbers, then
   * `b` from the vector file's numbers. It fails (the program exits) as soon
   * as a file runs out of numbers.
   */
  method FileRead(n: nat, matrixTokens: seq<real>, vectorTokens: seq<real>, A: array2<real>, b: array<real>)
    returns (ok: bool)
    requires A.Length0 == A.Length1 == b.Length == n
    modifies A, b
    ensures ok <==> n * n <= |matrixTokens| && n <= |vectorTokens|
    ensures ok ==> RowMajor(A, matrixTokens)
    ensures ok ==> b[..] == vectorTokens[..n]
  {
    ok := ReadMatrix(n, matrixTokens, A);
    if ok {
      ok := ReadVector(n, vectorTokens, b);
    }
  }

  /** The first loop nest of `File_read`: the matrix file's numbers fill `A` row by row. */
  method ReadMatrix(n: nat, matrixTokens: seq<real>, A: array2<real>) returns (ok: bool)
    requires A.Length0 == A.Length1 == n
    modifies A
    ensures ok <==> n * n <= |matrixTokens|
    ensures ok ==> RowMajor(A, matrixTokens)
  {
    var t := 0;
    for i := 0 to n
      invariant t == RowStart(i, n) <= |matrixTokens|
      invariant forall p :: 0 <= p < i ==> RowStart(p, n) + n <= t
      invariant forall p, q :: 0 <= p < i && 0 <= q < n ==> A[p, q] == matrixTokens[RowStart(p, n) + q]
    {
      ghost var t0 := t;
      for j := 0 to n
        invariant t == t0 + j <= |matrixTokens|
        invariant forall p, q :: 0 <= p < i && 0 <= q < n ==> A[p, q] == matrixTokens[RowStart(p, n) + q]
        invariant forall q :: 0 <= q < j ==> A[i, q] == matrixTokens[t0 + q]
      {
        if t >= |matrixTokens| {
          RowStartIsProduct(i, n);
          RowMajorBound(i, j, n, n);
          return false;
        }
        A[i, j] := matrixTokens[t];
        t := t + 1;
      }
    }
    RowStartIsProduct(n, n);
    return true;
  }

  /** The second loop of `File_read`: `b[i]` takes number `i` of the vector file. */
  method ReadVector(n: nat, vectorTokens: seq<real>, b: array<real>) returns (ok: bool)
    requires b.Length == n
    modifies b
    ensures ok <==> n <= |vectorTokens|
    ensures ok ==> b[..] == vectorTokens[..n]
  {
    for i := 0 to n
      invariant i <= |vectorTokens|
      invariant b[..i] == vectorTokens[..i]
    {
      if i >= |vectorTokens| {
        return false;
      }
      b[i] := vectorTokens[i];
    }
    return true;
  }

  /**
   * `Matrix_vector_multiplier`: `c[i]` is reset to 0 and accumulates
   * `A[i][j] * b[j]` over `j`; only `c` is written.
   */
  method MatrixVectorMultiplier(n: nat, A: array2<real>, b: array<real>, c: array<real>)
    requires A.Length0 == A.Length1 == b.Length == c.Length == n
    requires c != b
    modifies c
    ensures forall i :: 0 <= i < n ==> c[i] == Inner(Rows(A)[i], b[..], 0, n - 1)
    ensures b[..] == old(b[..])
  {
    ghost var m, v := Rows(A), b[..];
    for i := 0 to n
      invariant forall q :: 0 <= q < i ==> c[q] == Inner(m[q], v, 0, n - 1)
    {
      c[i] := 0.0;
      for j := 0 to n
        invariant forall q :: 0 <= q < i ==> c[q] == Inner(m[q], v, 0, n - 1)
        invariant c[i] == Inner(m[i], v, 0, j - 1)
      {
        InnerStep(m[i], v, 0, j);
        c[i] := c[i] + A[i, j] * b[j];
      }
    }
  }
}
