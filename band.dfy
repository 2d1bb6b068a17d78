/**
 * The banded symmetric solver of the 5_kadai program. The bandwidth `w` is
 * the largest `j - i + 1` over the nonzero upper entries `(i, j)` of the
 * input; row `i` of the band array holds entries `(i, i)..(i, i + w - 1)`,
 * entry `(i, j)` at offset `j - i`, and zero where `j >= n`.
 *
 * The band is modelled as an `n x w` array; the input file as the dense
 * matrix of numbers it holds, row by row.
 */
module BandSymmetric {
  import opened Vectors
  import TriangularSymmetric
  import NaiveElimination

  type Matrix = seq<seq<real>>

  /** `(i', j')` comes before `(i, j)` in row-major order. */
  predicate Before(i': int, j': int, i: int, j: int)
  {
    i' < i || (i' == i && j' < j)
  }

  /**
   * `w` is the bandwidth of `input`: every nonzero upper entry `(i, j)`
   * has `j - i + 1 <= w`, and `w` is 0 or attained by one of them.
   */
  ghost predicate IsBandwidth(input: Matrix, n: nat, w: int)
    requires Shaped(input, n, n)
  {
    (forall i, j :: 0 <= i <= j < n && input[i][j] != 0.0 ==> j - i + 1 <= w)
    && (w == 0 || exists i, j :: 0 <= i <= j < n && input[i][j] != 0.0 && j - i + 1 == w)
  }

  /** The bandwidth of a matrix is unique. */
  lemma BandwidthUnique(input: Matrix, n: nat, w: int, w': int)
    requires Shaped(input, n, n) && IsBandwidth(input, n, w) && IsBandwidth(input, n, w')
    ensures w == w'
  {
    if w != 0 {
      var i, j :| 0 <= i <= j < n && input[i][j] != 0.0 && j - i + 1 == w;
      assert w <= w';
    }
    if w' != 0 {
      var i, j :| 0 <= i <= j < n && input[i][j] != 0.0 && j - i + 1 == w';
      assert w' <= w;
    }
  }

  /** A matrix whose only nonzero upper entries lie on the diagonal, with `(0, 0)` nonzero, has bandwidth 1. */
  lemma BandwidthOfDiagonal(input: Matrix, n: nat, w: int)
    requires Shaped(input, n, n) && IsBandwidth(input, n, w) && n >= 1
    requires input[0][0] != 0.0 && forall i, j :: 0 <= i < j < n ==> input[i][j] == 0.0
    ensures w == 1
  {
    assert 0 - 0 + 1 <= w;
    var i, j :| 0 <= i <= j < n && input[i][j] != 0.0 && j - i + 1 == w;
    assert i == j;
  }

  /** A nonzero corner `(0, n - 1)` gives bandwidth `n`. */
  lemma BandwidthOfCorner(input: Matrix, n: nat, w: int)
    requires Shaped(input, n, n) && IsBandwidth(input, n, w) && n >= 1 && input[0][n - 1] != 0.0
    ensures w == n
  {
    assert n - 1 - 0 + 1 <= w;
    var i, j :| 0 <= i <= j < n && input[i][j] != 0.0 && j - i + 1 == w;
  }

  /** The upper entries scanned before `(i, j)` fit in `w`, and `w` is 0 or one of theirs. */
  ghost predicate BandwidthSoFar(input: Matrix, n: nat, i: int, j: int, w: int, wi: int, wj: int)
    requires Shaped(input, n, n)
  {
    (forall i', j' :: 0 <= i' <= j' < n && Before(i', j', i, j) && input[i'][j'] != 0.0 ==> j' - i' + 1 <= w)
    && (w == 0 || (0 <= wi <= wj < n && input[wi][wj] != 0.0 && wj - wi + 1 == w))
  }

  /** `get_bandwidth`: one pass over the input keeping the widest nonzero upper entry. */
  method GetBandwidth(input: Matrix, n: nat) returns (w: nat)
    requires Shaped(input, n, n)
    ensures IsBandwidth(input, n, w)
    ensures w <= n
  {
    w := 0;
    ghost var wi, wj := 0, 0;
    for i := 0 to n
      invariant BandwidthSoFar(input, n, i, 0, w, wi, wj) && w <= n
    {
      for j := 0 to n
        invariant BandwidthSoFar(input, n, i, j, w, wi, wj) && w <= n
      {
        var tmp := input[i][j];
        if j >= i && tmp != 0.0 {
          if j - i + 1 > w {
            w := j - i + 1;
            wi, wj := i, j;
          }
        }
      }
    }
  }

  /** Offset `d` of row `i` of the band read from `input`: entry `(i, i + d)`, or 0 past the last column. */
  ghost function BandCell(input: Matrix, n: nat, i: int, d: int): real
    requires Shaped(input, n, n) && 0 <= i < n && 0 <= d
  {
    if i + d < n then input[i][i + d] else 0.0
  }

  /** The symmetry `read_matrix` checks: lower entries within the band, and no others. */
  ghost predicate BandSymmetric(input: Matrix, n: nat, w: int)
    requires Shaped(input, n, n)
  {
    forall i, j :: 0 <= j < i < n && i - j < w ==> input[i][j] == input[j][i]
  }

  /** The zero fill of `read_matrix`. */
  method ZeroFill(a: array2<real>)
    modifies a
    ensures forall i, d :: 0 <= i < a.Length0 && 0 <= d < a.Length1 ==> a[i, d] == 0.0
  {
    for i := 0 to a.Length0
      invariant forall i', d :: 0 <= i' < i && 0 <= d < a.Length1 ==> a[i', d] == 0.0
    {
      for d := 0 to a.Length1
        invariant forall i', d' :: 0 <= i' < a.Length0 && 0 <= d' < a.Length1 && Before(i', d', i, d) ==> a[i', d'] == 0.0
      {
        a[i, d] := 0.0;
      }
    }
  }

  /** Rows before `rows` hold the band; row `rows` holds its entries before column `cols`; later cells are 0. */
  ghost predicate BandTo(a: array2<real>, input: Matrix, n: nat, rows: int, cols: int)
    reads a
    requires a.Length0 == n && Shaped(input, n, n)
  {
    forall i, d :: 0 <= i < n && 0 <= d < a.Length1 ==>
      a[i, d] == (if i < rows then BandCell(input, n, i, d) else if i == rows && i + d < cols && i + d < n then input[i][i + d] else 0.0)
  }

  /** The band symmetry holds for the lower entries scanned before `(rows, cols)`. */
  ghost predicate CheckedTo(input: Matrix, n: nat, w: int, rows: int, cols: int)
    requires Shaped(input, n, n)
  {
    forall i, j :: 0 <= j < i < n && i - j < w && Before(i, j, rows, cols) ==> input[i][j] == input[j][i]
  }

  /**
   * `read_matrix`: zero-fills the band, then stores each upper entry inside
   * it and compares each lower entry inside it with its stored mirror; the
   * first mismatch aborts. Entries outside the band are read and dropped.
   */
  method ReadMatrix(a: array2<real>, n: nat, w: nat, input: Matrix) returns (ok: bool)
    requires a.Length0 == n && a.Length1 == w && Shaped(input, n, n)
    modifies a
    ensures ok <==> BandSymmetric(input, n, w)
    ensures ok ==> forall i, d :: 0 <= i < n && 0 <= d < w ==> a[i, d] == BandCell(input, n, i, d)
  {
    ZeroFill(a);
    for i := 0 to n
      invariant BandTo(a, input, n, i, 0) && CheckedTo(input, n, w, i, 0)
    {
      ok := ReadRow(a, n, w, input, i);
      if !ok {
        return false;
      }
    }
    return true;
  }

  /** One row of `read_matrix`: the `j` loop for row `i`. */
  method ReadRow(a: array2<real>, n: nat, w: nat, input: Matrix, i: int) returns (ok: bool)
    requires a.Length0 == n && a.Length1 == w && Shaped(input, n, n) && 0 <= i < n
    requires BandTo(a, input, n, i, 0) && CheckedTo(input, n, w, i, 0)
    modifies a
    ensures ok ==> BandTo(a, input, n, i + 1, 0) && CheckedTo(input, n, w, i + 1, 0)
    ensures !ok ==> !BandSymmetric(input, n, w)
  {
    for j := 0 to n
      invariant BandTo(a, input, n, i, j) && CheckedTo(input, n, w, i, j)
    {
      var tmp := input[i][j];
      if j >= i {
        if j - i < w {
          a[i, j - i] := tmp;
        }
      } else if i - j < w {
        assert a[j, i - j] == input[j][i];
        if tmp != a[j, i - j] {
          return false;
        }
      }
    }
    return true;
  }

  /** One past the last row (and column) step `i` reaches: `min(i + w, n)`. */
  function Limit(n: nat, w: nat, i: int): (l: int)
    ensures l <= n && l <= i + w && (l == n || l == i + w)
  {
    if i + w < n then i + w else n
  }

  /**
   * Offset `d` of row `r` after step `i`: rows `i + 1..Limit - 1`, at
   * columns up to `Limit - 1`, lose `A(i, r) / A(i, i)` times `A(i, r + d)`.
   */
  ghost function StepEntry(m: Matrix, n: nat, w: nat, i: int, r: int, d: int): real
    requires Shaped(m, n, w) && 0 <= i < n && 0 <= r < n && 0 <= d < w && m[i][0] != 0.0
  {
    if i < r < Limit(n, w, i) && r + d < Limit(n, w, i) then m[r][d] - m[i][r - i] / m[i][0] * m[i][r + d - i] else m[r][d]
  }

  ghost function StepA(m: Matrix, n: nat, w: nat, i: int): (m': Matrix)
    requires Shaped(m, n, w) && 0 <= i < n && w >= 1 && m[i][0] != 0.0
    ensures Shaped(m', n, w)
  {
    seq(n, r requires 0 <= r < n => seq(w, d requires 0 <= d < w => StepEntry(m, n, w, i, r, d)))
  }

  ghost function StepB(v: seq<real>, m: Matrix, n: nat, w: nat, i: int): (v': seq<real>)
    requires Shaped(m, n, w) && |v| == n && 0 <= i < n && w >= 1 && m[i][0] != 0.0
    ensures |v'| == n
  {
    seq(n, r requires 0 <= r < n => if i < r < Limit(n, w, i) then v[r] - m[i][r - i] / m[i][0] * v[i] else v[r])
  }

  /** Step `i` writes only rows `i + 1..min(i + w, n) - 1` and the same entries of `b`. */
  lemma StepFrame(m: Matrix, v: seq<real>, n: nat, w: nat, i: int, r: int, d: int)
    requires Shaped(m, n, w) && |v| == n && 0 <= i < n && w >= 1 && m[i][0] != 0.0 && 0 <= r < n && 0 <= d < w
    requires r <= i || r >= Limit(n, w, i)
    ensures StepA(m, n, w, i)[r][d] == m[r][d] && StepB(v, m, n, w, i)[r] == v[r]
  {
  }

  /** The triangle `t` (as stored by the 4_kadai solver) is zero beyond the band and agrees with `m` inside it. */
  ghost predicate BandOf(m: Matrix, t: Matrix, n: nat, w: nat)
    requires Shaped(m, n, w) && Shaped(t, n, n)
  {
    (forall r, d :: 0 <= r < n && w <= d < n - r ==> t[r][d] == 0.0)
    && (forall r, d :: 0 <= r < n && 0 <= d < w && r + d < n ==> m[r][d] == t[r][d])
  }

  /**
   * Step `i` on the band is the step of the ragged-triangle solver on a
   * triangle that is zero outside the band, and that step creates no
   * nonzero outside the band.
   */
  lemma StepIsTriangularStep(m: Matrix, t: Matrix, n: nat, w: nat, i: int)
    requires Shaped(m, n, w) && Shaped(t, n, n) && BandOf(m, t, n, w) && 0 <= i < n && w >= 1 && m[i][0] != 0.0
    ensures t[i][0] == m[i][0]
    ensures BandOf(StepA(m, n, w, i), TriangularSymmetric.StepA(t, n, i), n, w)
  {
    assert t[i][0] == m[i][0];
    var m', t' := StepA(m, n, w, i), TriangularSymmetric.StepA(t, n, i);
    forall r, d | 0 <= r < n && w <= d < n - r
      ensures t'[r][d] == 0.0
    {
      if i < r {
        assert t[r][d] == 0.0;
        if r - i < w {
          assert t[i][r + d - i] == 0.0;
        } else {
          assert t[i][r - i] == 0.0;
        }
      }
    }
    forall r, d | 0 <= r < n && 0 <= d < w && r + d < n
      ensures m'[r][d] == t'[r][d]
    {
      if i < r && r + d < Limit(n, w, i) {
        assert m[i][r - i] == t[i][r - i] && m[i][r + d - i] == t[i][r + d - i];
      } else if i < r {
        if r - i < w {
          assert t[i][r + d - i] == 0.0;
        } else {
          assert t[i][r - i] == 0.0;
        }
      }
    }
  }

  /** `forward_erase` through step `s - 1`: step `i` aborts when `A[i][0]` is zero. */
  ghost function Erase(m0: Matrix, v0: seq<real>, n: nat, w: nat, s: nat): (e: TriangularSymmetric.Erasure)
    requires Shaped(m0, n, w) && |v0| == n && w >= 1 && (s < n || s == 0)
    ensures e.Erased? ==> Shaped(e.a, n, w) && |e.b| == n
    ensures e.Aborted? ==> 0 <= e.step < s
  {
    if s == 0 then TriangularSymmetric.Erased(m0, v0)
    else
      match Erase(m0, v0, n, w, s - 1)
      case Aborted(at) => TriangularSymmetric.Aborted(at)
      case Erased(m, v) =>
        if m[s - 1][0] == 0.0 then TriangularSymmetric.Aborted(s - 1)
        else TriangularSymmetric.Erased(StepA(m, n, w, s - 1), StepB(v, m, n, w, s - 1))
  }

  /** An abort at step `s` stays the outcome of every later step count. */
  lemma {:induction false} AbortStays(m0: Matrix, v0: seq<real>, n: nat, w: nat, s: nat, s2: nat, m: Matrix, v: seq<real>)
    requires Shaped(m0, n, w) && |v0| == n && w >= 1 && s < s2 < n
    requires Erase(m0, v0, n, w, s) == TriangularSymmetric.Erased(m, v) && m[s][0] == 0.0
    ensures Erase(m0, v0, n, w, s2) == TriangularSymmetric.Aborted(s)
    decreases s2
  {
    if s + 1 < s2 {
      AbortStays(m0, v0, n, w, s, s2 - 1, m, v);
    }
  }

  /** Rows before `j` finished by step `i`, and row `j` at offsets before `d`. */
  ghost predicate ErasedTo(a: array2<real>, m: Matrix, n: nat, w: nat, i: int, j: int, d: int)
    reads a
    requires a.Length0 == n && a.Length1 == w && Shaped(m, n, w) && 0 <= i < n && w >= 1 && m[i][0] != 0.0
  {
    forall r, c :: 0 <= r < n && 0 <= c < w ==>
      a[r, c] == (if r < j || (r == j && c < d) then StepEntry(m, n, w, i, r, c) else m[r][c])
  }

  /** `b[0..j - 1]` finished by step `i`. */
  ghost predicate RhsTo(b: array<real>, v: seq<real>, m: Matrix, n: nat, w: nat, i: int, j: int)
    reads b
    requires b.Length == |v| == n && Shaped(m, n, w) && 0 <= i < n && w >= 1 && m[i][0] != 0.0
  {
    forall r :: 0 <= r < n ==> b[r] == (if r < j then StepB(v, m, n, w, i)[r] else v[r])
  }

  /** A row whose `k` loop ended at the limit is finished: the rest of it is left alone. */
  lemma RowEnd(a: array2<real>, m: Matrix, n: nat, w: nat, i: int, j: int)
    requires a.Length0 == n && a.Length1 == w && Shaped(m, n, w) && 0 <= i < j < Limit(n, w, i) && m[i][0] != 0.0
    requires ErasedTo(a, m, n, w, i, j, Limit(n, w, i) - j)
    ensures ErasedTo(a, m, n, w, i, j + 1, 0)
  {
  }

  /** Rows from `Limit` on are left alone, so a step ends at the limit. */
  lemma StepEnd(a: array2<real>, b: array<real>, m: Matrix, v: seq<real>, n: nat, w: nat, i: int)
    requires a.Length0 == n && a.Length1 == w && b.Length == |v| == n && Shaped(m, n, w) && 0 <= i < n && w >= 1 && m[i][0] != 0.0
    requires i + 1 <= Limit(n, w, i)
    requires ErasedTo(a, m, n, w, i, Limit(n, w, i), 0) && RhsTo(b, v, m, n, w, i, Limit(n, w, i))
    ensures Holds(a, StepA(m, n, w, i)) && b[..] == StepB(v, m, n, w, i)
  {
  }

  /**
   * The `k` loop of step `i` for row `j`, `k = j..min(i + w, n) - 1`, with
   * the guard of the source, which the loop bounds make always true.
   */
  method UpdateRow(a: array2<real>, n: nat, w: nat, i: int, j: int, tmp: real, ghost m: Matrix)
    requires a.Length0 == n && a.Length1 == w && 0 <= i < j < Limit(n, w, i)
    requires Shaped(m, n, w) && m[i][0] != 0.0 && tmp == m[i][j - i] / m[i][0]
    requires ErasedTo(a, m, n, w, i, j, 0)
    modifies a
    ensures ErasedTo(a, m, n, w, i, j, Limit(n, w, i) - j)
  {
    var kLimit := i + w;
    if kLimit > n {
      kLimit := n;
    }
    for k := j to kLimit
      invariant ErasedTo(a, m, n, w, i, j, k - j)
    {
      assert j - i < w && k - i < w && k - j < w;
      if j - i < w && k - i < w && k - j < w {
        assert a[i, k - i] == m[i][k - i] && a[j, k - j] == m[j][k - j];
        var u := a[j, k - j] - tmp * a[i, k - i];
        assert u == StepEntry(m, n, w, i, j, k - j);
        a[j, k - j] := u;
      }
    }
  }

  /** Row `j` of step `i`: the multiplier, `b[j]` and the `k` loop. */
  method EraseRow(a: array2<real>, b: array<real>, n: nat, w: nat, i: int, j: int, ghost m: Matrix, ghost v: seq<real>)
    requires a.Length0 == b.Length == |v| == n && a.Length1 == w && 0 <= i < j < Limit(n, w, i)
    requires Shaped(m, n, w) && m[i][0] != 0.0
    requires ErasedTo(a, m, n, w, i, j, 0) && RhsTo(b, v, m, n, w, i, j)
    modifies a, b
    ensures ErasedTo(a, m, n, w, i, j + 1, 0) && RhsTo(b, v, m, n, w, i, j + 1)
  {
    assert a[i, 0] == m[i][0] && a[i, j - i] == m[i][j - i] && b[i] == v[i] && b[j] == v[j];
    var tmp := a[i, j - i] / a[i, 0];
    b[j] := b[j] - tmp * b[i];
    UpdateRow(a, n, w, i, j, tmp, m);
    RowEnd(a, m, n, w, i, j);
  }

  /** Step `i` of `forward_erase`, once its pivot has passed the check: rows `j = i + 1..min(i + w, n) - 1`. */
  method EraseStep(a: array2<real>, b: array<real>, n: nat, w: nat, i: int)
    requires a.Length0 == b.Length == n && a.Length1 == w && w >= 1 && 0 <= i < n && a[i, 0] != 0.0
    modifies a, b
    ensures Shaped(old(Rows(a)), n, w) && Holds(a, StepA(old(Rows(a)), n, w, i))
    ensures b[..] == StepB(old(b[..]), old(Rows(a)), n, w, i)
  {
    ghost var m, v := Rows(a), b[..];
    var j := i + 1;
    while j < i + w && j < n
      invariant i + 1 <= j <= Limit(n, w, i)
      invariant ErasedTo(a, m, n, w, i, j, 0) && RhsTo(b, v, m, n, w, i, j)
    {
      EraseRow(a, b, n, w, i, j, m, v);
      j := j + 1;
    }
    StepEnd(a, b, m, v, n, w, i);
  }

  /** `forward_erase`: steps `i = 0..n - 2`, aborting (the source exits) when `A[i][0]` is zero. */
  method ForwardErase(a: array2<real>, b: array<real>, n: nat, w: nat) returns (ok: bool, at: int)
    requires a.Length0 == b.Length == n && a.Length1 == w && w >= 1
    modifies a, b
    ensures Shaped(old(Rows(a)), n, w)
    ensures Erase(old(Rows(a)), old(b[..]), n, w, NaiveElimination.Steps(n))
      == if ok then TriangularSymmetric.Erased(Rows(a), b[..]) else TriangularSymmetric.Aborted(at)
  {
    ghost var m0, v0 := Rows(a), b[..];
    var i := 0;
    while i < n - 1
      invariant 0 <= i <= NaiveElimination.Steps(n)
      invariant Erase(m0, v0, n, w, i) == TriangularSymmetric.Erased(Rows(a), b[..])
    {
      if a[i, 0] == 0.0 {
        ghost var e := Erase(m0, v0, n, w, i + 1);
        assert e == TriangularSymmetric.Aborted(i);
        if i + 1 < n - 1 {
          AbortStays(m0, v0, n, w, i, n - 1, Rows(a), b[..]);
        }
        return false, i;
      }
      ghost var s, sb := Rows(a), b[..];
      EraseStep(a, b, n, w, i);
      HoldsIsRows(a, StepA(s, n, w, i));
      ghost var e := Erase(m0, v0, n, w, i + 1);
      assert e == TriangularSymmetric.Erased(StepA(s, n, w, i), StepB(sb, s, n, w, i));
      i := i + 1;
    }
    return true, 0;
  }

  /** `A(i, i + 1) * x[i + 1] + ... + A(i, j - 1) * x[j - 1]`, read from the band, accumulated from the left. */
  ghost function Tail(m: Matrix, n: nat, w: nat, i: int, x: seq<real>, j: int): real
    requires Shaped(m, n, w) && |x| == n && 0 <= i < n && j <= Limit(n, w, i)
    decreases j
  {
    if j <= i + 1 then 0.0 else Tail(m, n, w, i, x, j - 1) + m[i][j - 1 - i] * x[j - 1]
  }

  /** The tail of row `i` only reads `x[i + 1..j - 1]`. */
  lemma {:induction false} TailFrame(m: Matrix, n: nat, w: nat, i: int, x: seq<real>, x': seq<real>, j: int)
    requires Shaped(m, n, w) && |x| == |x'| == n && 0 <= i < n && j <= Limit(n, w, i)
    requires forall j' :: i < j' < j ==> x[j'] == x'[j']
    ensures Tail(m, n, w, i, x, j) == Tail(m, n, w, i, x', j)
    decreases j
  {
    if j > i + 1 {
      TailFrame(m, n, w, i, x, x', j - 1);
    }
  }

  /** Row `r` done: `b[r]` is the old `b[r]` less the band tail, and `x[r] * A(r, r)` is that difference. */
  ghost predicate RowAssigned(m: Matrix, v0: seq<real>, v: seq<real>, x: seq<real>, n: nat, w: nat, r: int)
    requires Shaped(m, n, w) && |v0| == |v| == |x| == n && 0 <= r < n && w >= 1
  {
    v[r] == v0[r] - Tail(m, n, w, r, x, Limit(n, w, r)) && x[r] * m[r][0] == v[r]
  }

  /** Rows `i..n - 1` done. */
  ghost predicate AssignedFrom(m: Matrix, v0: seq<real>, v: seq<real>, x: seq<real>, n: nat, w: nat, i: int)
    requires Shaped(m, n, w) && |v0| == |v| == |x| == n && w >= 1
  {
    forall r :: i <= r < n && 0 <= r ==> RowAssigned(m, v0, v, x, n, w, r)
  }

  /** A done row stays done when only `b` and `x` entries before it change. */
  lemma RowAssignedFrame(m: Matrix, v0: seq<real>, v: seq<real>, x: seq<real>, v': seq<real>, x': seq<real>, n: nat, w: nat, r: int)
    requires Shaped(m, n, w) && |v0| == |v| == |x| == |v'| == |x'| == n && 0 <= r < n && w >= 1
    requires forall j :: r <= j < n ==> x[j] == x'[j] && v[j] == v'[j]
    requires RowAssigned(m, v0, v, x, n, w, r)
    ensures RowAssigned(m, v0, v', x', n, w, r)
  {
    TailFrame(m, n, w, r, x, x', Limit(n, w, r));
  }

  /** Writing row `i`'s `b[i]` and `x[i]` keeps rows `i + 1..n - 1` done and does row `i`. */
  lemma AssignStep(m: Matrix, v0: seq<real>, v: seq<real>, x: seq<real>, n: nat, w: nat, i: int, s: real, t: real)
    requires Shaped(m, n, w) && |v0| == |v| == |x| == n && 0 <= i < n && w >= 1
    requires AssignedFrom(m, v0, v, x, n, w, i + 1)
    requires s == v0[i] - Tail(m, n, w, i, x, Limit(n, w, i)) && t * m[i][0] == s
    ensures AssignedFrom(m, v0, v[i := s], x[i := t], n, w, i)
  {
    var v', x' := v[i := s], x[i := t];
    forall r | i < r < n
      ensures RowAssigned(m, v0, v', x', n, w, r)
    {
      RowAssignedFrame(m, v0, v, x, v', x', n, w, r);
    }
    AssignRow(m, v0, v, x, n, w, i, s, t);
  }

  /** Row `i` is done once `b[i]` and `x[i]` are written, whatever `b` and `x` hold elsewhere. */
  lemma AssignRow(m: Matrix, v0: seq<real>, v: seq<real>, x: seq<real>, n: nat, w: nat, i: int, s: real, t: real)
    requires Shaped(m, n, w) && |v0| == |v| == |x| == n && 0 <= i < n && w >= 1
    requires s == v0[i] - Tail(m, n, w, i, x, Limit(n, w, i)) && t * m[i][0] == s
    ensures RowAssigned(m, v0, v[i := s], x[i := t], n, w, i)
  {
    TailFrame(m, n, w, i, x, x[i := t], Limit(n, w, i));
    assert v[i := s][i] == s && x[i := t][i] == t;
  }

  /** The `j` loop of row `i`: `b[i] -= A[i][j - i] * x[j]` for `j = i + 1..min(i + w, n) - 1`. */
  method SubtractTail(a: array2<real>, b: array<real>, x: array<real>, n: nat, w: nat, i: int)
    requires a.Length0 == b.Length == x.Length == n && a.Length1 == w && 0 <= i < n && b != x
    modifies b
    ensures Shaped(Rows(a), n, w)
    ensures b[i] == old(b[i]) - Tail(Rows(a), n, w, i, x[..], Limit(n, w, i))
    ensures forall r :: 0 <= r < n && r != i ==> b[r] == old(b[r])
  {
    var j := i + 1;
    while j < i + w && j < n
      invariant i + 1 <= j && (j <= Limit(n, w, i) || j == i + 1)
      invariant j <= Limit(n, w, i) ==> b[i] == old(b[i]) - Tail(Rows(a), n, w, i, x[..], j)
      invariant j > Limit(n, w, i) ==> b[i] == old(b[i])
      invariant forall r :: 0 <= r < n && r != i ==> b[r] == old(b[r])
    {
      b[i] := b[i] - a[i, j - i] * x[j];
      j := j + 1;
    }
  }

  /**
   * `backward_assignment`: rows `n - 1` down to 0, each subtracting its band
   * tail from `b[i]` and dividing by `A[i][0]`; a zero there aborts (the
   * source exits), and the first zero met is the last one in row order.
   */
  method BackwardAssignment(a: array2<real>, b: array<real>, x: array<real>, n: nat, w: nat) returns (ok: bool, at: int)
    requires a.Length0 == b.Length == x.Length == n && a.Length1 == w && w >= 1 && b != x
    modifies b, x
    ensures Shaped(Rows(a), n, w)
    ensures ok <==> forall r :: 0 <= r < n ==> a[r, 0] != 0.0
    ensures !ok ==> 0 <= at < n && a[at, 0] == 0.0 && forall r :: at < r < n ==> a[r, 0] != 0.0
    ensures ok ==> AssignedFrom(Rows(a), old(b[..]), b[..], x[..], n, w, 0)
  {
    ghost var m, v0 := Rows(a), b[..];
    var i := n - 1;
    while i >= 0
      invariant -1 <= i < n
      invariant AssignedFrom(m, v0, b[..], x[..], n, w, i + 1)
      invariant forall r :: 0 <= r <= i ==> b[r] == v0[r]
      invariant forall r :: i < r < n ==> a[r, 0] != 0.0
    {
      ghost var vb, xb := b[..], x[..];
      SubtractTail(a, b, x, n, w, i);
      assert b[..] == vb[i := b[i]];
      if a[i, 0] == 0.0 {
        return false, i;
      }
      var t := b[i] / a[i, 0];
      DivCancel(a[i, 0], b[i]);
      AssignStep(m, v0, vb, xb, n, w, i, b[i], t);
      x[i] := t;
      assert x[..] == xb[i := t];
      i := i - 1;
    }
    return true, 0;
  }
}
