/**
 * The symmetric solver of the 4_kadai program, which stores the upper
 * triangle of an `n x n` symmetric matrix in ragged rows: row `i` holds the
 * `n - i` entries `(i, i)..(i, n - 1)`, entry `(i, j)` at offset `j - i`.
 *
 * The ragged rows are modelled as the rows of an `n x n` array of which row
 * `i` uses cells `0..n - i - 1`; every access to the array asserts
 * `InRow` first, so no operation reads or writes a cell beyond them. The input file is modelled as the
 * dense matrix of numbers it holds, row by row.
 */
module TriangularSymmetric {
  import opened Vectors
  import NaiveElimination

  type Matrix = seq<seq<real>>

  /** Offset `c` lies inside the ragged row `r`, which holds `n - r` entries. */
  predicate InRow(n: nat, r: int, c: int) {
    0 <= r < n && 0 <= c < n - r
  }

  /** Entry `(i, j)`, `i <= j`, of a stored triangle. */
  ghost function Upper(m: Matrix, n: nat, i: int, j: int): real
    requires Shaped(m, n, n) && 0 <= i <= j < n
  {
    m[i][j - i]
  }

  /** A dense matrix equal to its transpose. */
  ghost predicate Symmetric(input: Matrix, n: nat)
    requires Shaped(input, n, n)
  {
    forall i, j :: 0 <= j < i < n ==> input[i][j] == input[j][i]
  }

  /** Row `i` of the array holds input columns `i..n - 1` at offsets `0..n - i - 1`, for every row before `rows`. */
  ghost predicate StoredRows(a: array2<real>, input: Matrix, n: nat, rows: int)
    reads a
    requires a.Length0 == a.Length1 == n && Shaped(input, n, n)
  {
    forall i, j :: 0 <= i < rows && i <= j < n ==> a[i, j - i] == input[i][j]
  }

  /** The lower entries of rows before `rows`, and of row `rows` before column `cols`, match their mirrors. */
  ghost predicate CheckedTo(input: Matrix, n: nat, rows: int, cols: int)
    requires Shaped(input, n, n)
  {
    forall i, j :: 0 <= j < i < n && (i < rows || (i == rows && j < cols)) ==> input[i][j] == input[j][i]
  }

  /**
   * `read_matrix`: reads the input row by row, storing each upper entry at
   * `A[i][j - i]` and comparing each lower entry with the mirror stored
   * before it; the first mismatch aborts.
   */
  method ReadMatrix(a: array2<real>, n: nat, input: Matrix) returns (ok: bool)
    requires a.Length0 == a.Length1 == n && Shaped(input, n, n)
    modifies a
    ensures ok <==> Symmetric(input, n)
    ensures ok ==> StoredRows(a, input, n, n)
  {
    for i := 0 to n
      invariant StoredRows(a, input, n, i) && CheckedTo(input, n, i, 0)
    {
      ok := ReadRow(a, n, input, i);
      if !ok {
        return false;
      }
    }
    return true;
  }

  /** One row of `read_matrix`: the `j` loop for row `i`. */
  method ReadRow(a: array2<real>, n: nat, input: Matrix, i: int) returns (ok: bool)
    requires a.Length0 == a.Length1 == n && Shaped(input, n, n) && 0 <= i < n
    requires StoredRows(a, input, n, i) && CheckedTo(input, n, i, 0)
    modifies a
    ensures ok ==> StoredRows(a, input, n, i + 1) && CheckedTo(input, n, i + 1, 0)
    ensures !ok ==> !Symmetric(input, n)
  {
    for j := 0 to n
      invariant StoredRows(a, input, n, i) && CheckedTo(input, n, i, j)
      invariant forall j' :: i <= j' < j ==> a[i, j' - i] == input[i][j']
    {
      var tmp := input[i][j];
      if j >= i {
        assert InRow(n, i, j - i);
        a[i, j - i] := tmp;
      } else {
        assert InRow(n, j, i - j);
        assert a[j, i - j] == input[j][i];
        if tmp != a[j, i - j] {
          return false;
        }
      }
    }
    return true;
  }

  /**
   * Entry at offset `d` of row `r` after step `i`: for `r > i` within the
   * row, entry `(r, r + d)` loses `A(i, r) / A(i, i)` times `A(i, r + d)`,
   * each read from the upper triangle.
   */
  ghost function StepEntry(m: Matrix, n: nat, i: int, r: int, d: int): real
    requires Shaped(m, n, n) && 0 <= i < n && 0 <= r < n && 0 <= d < n && m[i][0] != 0.0
  {
    if i < r && d < n - r then m[r][d] - m[i][r - i] / m[i][0] * m[i][r + d - i] else m[r][d]
  }

  ghost function StepA(m: Matrix, n: nat, i: int): (m': Matrix)
    requires Shaped(m, n, n) && 0 <= i < n && m[i][0] != 0.0
    ensures Shaped(m', n, n)
  {
    seq(n, r requires 0 <= r < n => seq(n, d requires 0 <= d < n => StepEntry(m, n, i, r, d)))
  }

  ghost function StepB(v: seq<real>, m: Matrix, n: nat, i: int): (v': seq<real>)
    requires Shaped(m, n, n) && |v| == n && 0 <= i < n && m[i][0] != 0.0
    ensures |v'| == n
  {
    seq(n, r requires 0 <= r < n => if i < r then v[r] - m[i][r - i] / m[i][0] * v[i] else v[r])
  }

  /** Step `i` leaves rows `0..i` and `b[0..i]` alone, and every cell past the end of a row. */
  lemma StepFrame(m: Matrix, v: seq<real>, n: nat, i: int, r: int, d: int)
    requires Shaped(m, n, n) && |v| == n && 0 <= i < n && 0 <= r < n && 0 <= d < n && m[i][0] != 0.0
    requires r <= i || d >= n - r
    ensures StepA(m, n, i)[r][d] == m[r][d]
    ensures r <= i ==> StepB(v, m, n, i)[r] == v[r]
  {
  }

  /**
   * On the upper triangle of a symmetric matrix, step `i` computes what
   * dense elimination with pivot `(i, i)` computes: the multiplier
   * `A(i, r) / A(i, i)` read from row `i` equals `A(r, i) / A(i, i)`.
   */
  lemma StepIsDenseStep(dense: Matrix, m: Matrix, n: nat, i: int, r: int, k: int)
    requires Shaped(dense, n, n) && Shaped(m, n, n) && Symmetric(dense, n)
    requires forall p, q :: 0 <= p <= q < n ==> m[p][q - p] == dense[p][q]
    requires 0 <= i < n && 0 <= r <= k < n && m[i][0] != 0.0
    ensures StepA(m, n, i)[r][k - r] == NaiveElimination.StepA(dense, n, i)[r][k]
  {
    assert m[i][0] == dense[i][i] && m[r][k - r] == dense[r][k];
    if i < r {
      assert m[i][r - i] == dense[i][r] == dense[r][i];
      assert m[i][k - i] == dense[i][k];
    }
  }

  datatype Erasure = Erased(a: Matrix, b: seq<real>) | Aborted(step: int)

  /** `forward_erase` through step `s - 1`: step `i` aborts when `A(i, i)` is zero. */
  ghost function Erase(m0: Matrix, v0: seq<real>, n: nat, s: nat): (e: Erasure)
    requires Shaped(m0, n, n) && |v0| == n && (s < n || s == 0)
    ensures e.Erased? ==> Shaped(e.a, n, n) && |e.b| == n
    ensures e.Aborted? ==> 0 <= e.step < s
  {
    if s == 0 then Erased(m0, v0)
    else
      match Erase(m0, v0, n, s - 1)
      case Aborted(at) => Aborted(at)
      case Erased(m, v) =>
        if m[s - 1][0] == 0.0 then Aborted(s - 1)
        else Erased(StepA(m, n, s - 1), StepB(v, m, n, s - 1))
  }

  /** An abort at step `s` stays the outcome of every later step count. */
  lemma {:induction false} AbortStays(m0: Matrix, v0: seq<real>, n: nat, s: nat, s2: nat, m: Matrix, v: seq<real>)
    requires Shaped(m0, n, n) && |v0| == n && s < s2 < n
    requires Erase(m0, v0, n, s) == Erased(m, v) && m[s][0] == 0.0
    ensures Erase(m0, v0, n, s2) == Aborted(s)
    decreases s2
  {
    if s + 1 < s2 {
      AbortStays(m0, v0, n, s, s2 - 1, m, v);
    }
  }

  /** Rows before `j` finished by step `i`, and row `j` at offsets before `d`. */
  ghost predicate ErasedTo(a: array2<real>, m: Matrix, n: nat, i: int, j: int, d: int)
    reads a
    requires a.Length0 == a.Length1 == n && Shaped(m, n, n) && 0 <= i < n && m[i][0] != 0.0
  {
    forall r, c :: 0 <= r < n && 0 <= c < n ==>
      a[r, c] == (if r < j || (r == j && c < d) then StepEntry(m, n, i, r, c) else m[r][c])
  }

  /** `b[0..j - 1]` finished by step `i`. */
  ghost predicate RhsTo(b: array<real>, v: seq<real>, m: Matrix, n: nat, i: int, j: int)
    reads b
    requires b.Length == |v| == n && Shaped(m, n, n) && 0 <= i < n && m[i][0] != 0.0
  {
    forall r :: 0 <= r < n ==> b[r] == (if r < j then StepB(v, m, n, i)[r] else v[r])
  }

  /** Cells past the end of row `j` are left alone, so a row ends at offset `n - j - 1`. */
  lemma RowEnd(a: array2<real>, m: Matrix, n: nat, i: int, j: int)
    requires a.Length0 == a.Length1 == n && Shaped(m, n, n) && 0 <= i < j < n && m[i][0] != 0.0
    requires ErasedTo(a, m, n, i, j, n - j)
    ensures ErasedTo(a, m, n, i, j + 1, 0)
  {
  }

  /** The `k` loop of step `i` for row `j`: `A[j][k - j] -= tmp * A[i][k - i]` for `k = j..n - 1`. */
  method UpdateRow(a: array2<real>, n: nat, i: int, j: int, tmp: real, ghost m: Matrix)
    requires a.Length0 == a.Length1 == n && 0 <= i < j < n
    requires Shaped(m, n, n) && m[i][0] != 0.0 && tmp == m[i][j - i] / m[i][0]
    requires ErasedTo(a, m, n, i, j, 0)
    modifies a
    ensures ErasedTo(a, m, n, i, j, n - j)
  {
    for k := j to n
      invariant ErasedTo(a, m, n, i, j, k - j)
    {
      assert InRow(n, i, k - i) && InRow(n, j, k - j);
      assert a[i, k - i] == m[i][k - i] && a[j, k - j] == m[j][k - j];
      var w := a[j, k - j] - tmp * a[i, k - i];
      assert w == StepEntry(m, n, i, j, k - j);
      a[j, k - j] := w;
    }
  }

  /** Row `j` of step `i`: the multiplier, `b[j]` and the `k` loop. */
  method EraseRow(a: array2<real>, b: array<real>, n: nat, i: int, j: int, ghost m: Matrix, ghost v: seq<real>)
    requires a.Length0 == a.Length1 == b.Length == |v| == n && 0 <= i < j < n
    requires Shaped(m, n, n) && m[i][0] != 0.0
    requires ErasedTo(a, m, n, i, j, 0) && RhsTo(b, v, m, n, i, j)
    modifies a, b
    ensures ErasedTo(a, m, n, i, j + 1, 0) && RhsTo(b, v, m, n, i, j + 1)
  {
    assert InRow(n, i, 0) && InRow(n, i, j - i);
    assert a[i, 0] == m[i][0] && a[i, j - i] == m[i][j - i] && b[i] == v[i] && b[j] == v[j];
    var tmp := a[i, j - i] / a[i, 0];
    b[j] := b[j] - tmp * b[i];
    UpdateRow(a, n, i, j, tmp, m);
    RowEnd(a, m, n, i, j);
  }

  /** Step `i` of `forward_erase`, once its pivot has passed the check. */
  method EraseStep(a: array2<real>, b: array<real>, n: nat, i: int)
    requires a.Length0 == a.Length1 == b.Length == n && 0 <= i < n && a[i, 0] != 0.0
    modifies a, b
    ensures Shaped(old(Rows(a)), n, n) && Holds(a, StepA(old(Rows(a)), n, i))
    ensures b[..] == StepB(old(b[..]), old(Rows(a)), n, i)
  {
    ghost var m, v := Rows(a), b[..];
    for j := i + 1 to n
      invariant ErasedTo(a, m, n, i, j, 0) && RhsTo(b, v, m, n, i, j)
    {
      EraseRow(a, b, n, i, j, m, v);
    }
  }

  /**
   * `forward_erase`: steps `i = 0..n - 2`, aborting (the source exits) when
   * `A[i][0]`, the diagonal entry `(i, i)`, is zero.
   */
  method ForwardErase(a: array2<real>, b: array<real>, n: nat) returns (ok: bool, at: int)
    requires a.Length0 == a.Length1 == b.Length == n
    modifies a, b
    ensures Shaped(old(Rows(a)), n, n)
    ensures Erase(old(Rows(a)), old(b[..]), n, NaiveElimination.Steps(n)) == if ok then Erased(Rows(a), b[..]) else Aborted(at)
  {
    ghost var m0, v0 := Rows(a), b[..];
    var i := 0;
    while i < n - 1
      invariant 0 <= i <= NaiveElimination.Steps(n)
      invariant Erase(m0, v0, n, i) == Erased(Rows(a), b[..])
    {
      assert InRow(n, i, 0);
      if a[i, 0] == 0.0 {
        ghost var e := Erase(m0, v0, n, i + 1);
        assert e == Aborted(i);
        if i + 1 < n - 1 {
          AbortStays(m0, v0, n, i, n - 1, Rows(a), b[..]);
        }
        return false, i;
      }
      ghost var s, sb := Rows(a), b[..];
      EraseStep(a, b, n, i);
      HoldsIsRows(a, StepA(s, n, i));
      ghost var e := Erase(m0, v0, n, i + 1);
      assert e == Erased(StepA(s, n, i), StepB(sb, s, n, i));
      i := i + 1;
    }
    return true, 0;
  }

  /** `A(i, i + 1) * x[i + 1] + ... + A(i, j - 1) * x[j - 1]`, read from row `i`, accumulated from the left. */
  ghost function Tail(m: Matrix, n: nat, i: int, x: seq<real>, j: int): real
    requires Shaped(m, n, n) && |x| == n && 0 <= i < n && j <= n
    decreases j
  {
    if j <= i + 1 then 0.0 else Tail(m, n, i, x, j - 1) + m[i][j - 1 - i] * x[j - 1]
  }

  /** The tail of row `i` only reads `x[i + 1..j - 1]`. */
  lemma {:induction false} TailFrame(m: Matrix, n: nat, i: int, x: seq<real>, x': seq<real>, j: int)
    requires Shaped(m, n, n) && |x| == |x'| == n && 0 <= i < n && j <= n
    requires forall j' :: i < j' < j ==> x[j'] == x'[j']
    ensures Tail(m, n, i, x, j) == Tail(m, n, i, x', j)
    decreases j
  {
    if j > i + 1 {
      TailFrame(m, n, i, x, x', j - 1);
    }
  }

  /** Row `r` done: `b[r]` is the old `b[r]` less the tail, and `x[r] * A(r, r)` is that difference. */
  ghost predicate RowAssigned(m: Matrix, v0: seq<real>, v: seq<real>, x: seq<real>, n: nat, r: int)
    requires Shaped(m, n, n) && |v0| == |v| == |x| == n && 0 <= r < n
  {
    v[r] == v0[r] - Tail(m, n, r, x, n) && x[r] * m[r][0] == v[r]
  }

  /** Rows `i..n - 1` done. */
  ghost predicate AssignedFrom(m: Matrix, v0: seq<real>, v: seq<real>, x: seq<real>, n: nat, i: int)
    requires Shaped(m, n, n) && |v0| == |v| == |x| == n
  {
    forall r :: i <= r < n && 0 <= r ==> RowAssigned(m, v0, v, x, n, r)
  }

  /** A done row stays done when only `b` and `x` entries before it change. */
  lemma RowAssignedFrame(m: Matrix, v0: seq<real>, v: seq<real>, x: seq<real>, v': seq<real>, x': seq<real>, n: nat, r: int)
    requires Shaped(m, n, n) && |v0| == |v| == |x| == |v'| == |x'| == n && 0 <= r < n
    requires forall j :: r <= j < n ==> x[j] == x'[j] && v[j] == v'[j]
    requires RowAssigned(m, v0, v, x, n, r)
    ensures RowAssigned(m, v0, v', x', n, r)
  {
    TailFrame(m, n, r, x, x', n);
  }

  /** Writing row `i`'s `b[i]` and `x[i]` keeps rows `i + 1..n - 1` done and does row `i`. */
  lemma AssignStep(m: Matrix, v0: seq<real>, v: seq<real>, x: seq<real>, n: nat, i: int, s: real, t: real)
    requires Shaped(m, n, n) && |v0| == |v| == |x| == n && 0 <= i < n
    requires AssignedFrom(m, v0, v, x, n, i + 1)
    requires s == v0[i] - Tail(m, n, i, x, n) && t * m[i][0] == s
    ensures AssignedFrom(m, v0, v[i := s], x[i := t], n, i)
  {
    var v', x' := v[i := s], x[i := t];
    forall r | i < r < n
      ensures RowAssigned(m, v0, v', x', n, r)
    {
      RowAssignedFrame(m, v0, v, x, v', x', n, r);
    }
    AssignRow(m, v0, v, x, n, i, s, t);
  }

  /** Row `i` is done once `b[i]` and `x[i]` are written, whatever `b` and `x` hold elsewhere. */
  lemma AssignRow(m: Matrix, v0: seq<real>, v: seq<real>, x: seq<real>, n: nat, i: int, s: real, t: real)
    requires Shaped(m, n, n) && |v0| == |v| == |x| == n && 0 <= i < n
    requires s == v0[i] - Tail(m, n, i, x, n) && t * m[i][0] == s
    ensures RowAssigned(m, v0, v[i := s], x[i := t], n, i)
  {
    TailFrame(m, n, i, x, x[i := t], n);
    assert v[i := s][i] == s && x[i := t][i] == t;
  }

  /** The `j` loop of row `i`: `b[i] -= A[i][j - i] * x[j]` for `j = i + 1..n - 1`. */
  method SubtractTail(a: array2<real>, b: array<real>, x: array<real>, n: nat, i: int)
    requires a.Length0 == a.Length1 == b.Length == x.Length == n && 0 <= i < n && b != x
    modifies b
    ensures Shaped(Rows(a), n, n)
    ensures b[i] == old(b[i]) - Tail(Rows(a), n, i, x[..], n)
    ensures forall r :: 0 <= r < n && r != i ==> b[r] == old(b[r])
  {
    for j := i + 1 to n
      invariant b[i] == old(b[i]) - Tail(Rows(a), n, i, x[..], j)
      invariant forall r :: 0 <= r < n && r != i ==> b[r] == old(b[r])
    {
      assert InRow(n, i, j - i);
      b[i] := b[i] - a[i, j - i] * x[j];
    }
  }

  /**
   * `backward_assignment`: rows `n - 1` down to 0, each subtracting its tail
   * from `b[i]` and dividing by `A[i][0]`; a zero there aborts (the source
   * exits), and the first zero met is the last one in row order.
   */
  method BackwardAssignment(a: array2<real>, b: array<real>, x: array<real>, n: nat) returns (ok: bool, at: int)
    requires a.Length0 == a.Length1 == b.Length == x.Length == n && b != x
    modifies b, x
    ensures Shaped(Rows(a), n, n)
    ensures ok <==> forall r :: 0 <= r < n ==> a[r, 0] != 0.0
    ensures !ok ==> 0 <= at < n && a[at, 0] == 0.0 && forall r :: at < r < n ==> a[r, 0] != 0.0
    ensures ok ==> AssignedFrom(Rows(a), old(b[..]), b[..], x[..], n, 0)
  {
    ghost var m, v0 := Rows(a), b[..];
    var i := n - 1;
    while i >= 0
      invariant -1 <= i < n
      invariant AssignedFrom(m, v0, b[..], x[..], n, i + 1)
      invariant forall r :: 0 <= r <= i ==> b[r] == v0[r]
      invariant forall r :: i < r < n ==> a[r, 0] != 0.0
    {
      ghost var vb, xb := b[..], x[..];
      SubtractTail(a, b, x, n, i);
      assert b[..] == vb[i := b[i]];
      assert InRow(n, i, 0);
      if a[i, 0] == 0.0 {
        return false, i;
      }
      var t := b[i] / a[i, 0];
      DivCancel(a[i, 0], b[i]);
      AssignStep(m, v0, vb, xb, n, i, b[i], t);
      x[i] := t;
      assert x[..] == xb[i := t];
      i := i - 1;
    }
    return true, 0;
  }
}
