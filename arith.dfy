/**
 * Integer facts about row-major layouts, where entry `(i, j)` of an
 * `n x m` matrix is element `i * m + j` of a flat listing.
 */
module Arith {

  lemma MulMono(a: int, b: int, c: int)
    requires a <= b && 0 <= c
    ensures a * c <= b * c
  {
    var d := b - a;
    assert b * c == a * c + d * c;
    assert d * c >= 0;
  }

  /** Entry `(i, j)` of an `n x m` row-major listing lies inside it, after row `i`'s start. */
  lemma RowMajorBound(i: int, j: int, n: int, m: int)
    requires 0 <= i < n && 0 <= j < m
    ensures 0 <= i * m <= i * m + j < i * m + m <= n * m
  {
    MulMono(i + 1, n, m);
    MulMono(0, i, m);
    assert (i + 1) * m == i * m + m;
  }

  /**
   * Where row `k` starts in a row-major listing with rows of length `m`,
   * counted row by row as a reading cursor advances.
   */
  function RowStart(k: nat, m: nat): (s: nat)
  {
    if k == 0 then 0 else RowStart(k - 1, m) + m
  }

  lemma {:induction false} RowStartIsProduct(k: nat, m: nat)
    ensures RowStart(k, m) == k * m
  {
    if k > 0 {
      RowStartIsProduct(k - 1, m);
      assert (k - 1) * m + m == k * m;
    }
  }

  /** Earlier rows end no later than later rows start. */
  lemma {:induction false} RowStartMono(p: nat, i: nat, m: nat)
    requires p < i
    ensures RowStart(p, m) + m <= RowStart(i, m)
  {
    if p < i - 1 {
      RowStartMono(p, i - 1, m);
    }
  }

  /** The offset `k * m` the C code computes, which is where the cursor `RowStart(k, m)` stands. */
  function RowOffset(k: nat, m: nat): (s: nat)
    ensures s == RowStart(k, m)
  {
    RowStartIsProduct(k, m);
    k * m
  }
}
