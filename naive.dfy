/**
 * Gaussian elimination without pivoting, the 2_kadai program: the dimension
 * taken from the newline count of the input file (`read_data`), forward
 * elimination that skips a step whose pivot is zero
 * (`forward_elimination`), and back substitution into a separate vector
 * that is flooded with NaN when a zero diagonal entry is met
 * (`backward_substitution`).
 *
 * The `n x n` system is 0-based: `A` is an `n x n` array, `b` and `x`
 * arrays of `n` entries.
 */
module NaiveElimination {
  import opened Vectors
  import opened Text

  type Matrix = seq<seq<real>>

  /**
   * The dimension logic of `read_data`: the file must hold an even, nonzero
   * number of newlines, `n` lines of matrix and `n` of vector; the dimension
   * is half of them, and 0 signals an error.
   */
  method ReadDimension(text: string) returns (n: nat)
    ensures n == 0 <==> Newlines(text) == 0 || Newlines(text) % 2 != 0
    ensures n != 0 ==> 2 * n == Newlines(text)
  {
    var lines := SizeCount(text);
    if lines == 0 {
      return 0;
    }
    if lines % 2 != 0 {
      return 0;
    }
    n := lines / 2;
  }

  /**
   * Entry `(i, j)` after step `k`: with a nonzero pivot, rows `i > k` lose
   * `A[i][k] / A[k][k]` times row `k` from column `k` on; with a zero pivot
   * nothing changes.
   */
  ghost function StepEntry(m: Matrix, n: nat, k: int, i: int, j: int): real
    requires Shaped(m, n, n) && 0 <= k < n && 0 <= i < n && 0 <= j < n
  {
    if m[k][k] != 0.0 && k < i && k <= j then m[i][j] - m[i][k] / m[k][k] * m[k][j] else m[i][j]
  }

  ghost function StepA(m: Matrix, n: nat, k: int): (m': Matrix)
    requires Shaped(m, n, n) && 0 <= k < n
    ensures Shaped(m', n, n)
  {
    seq(n, i requires 0 <= i < n => seq(n, j requires 0 <= j < n => StepEntry(m, n, k, i, j)))
  }

  ghost function StepB(v: seq<real>, m: Matrix, n: nat, k: int): (v': seq<real>)
    requires Shaped(m, n, n) && |v| == n && 0 <= k < n
    ensures |v'| == n
  {
    seq(n, i requires 0 <= i < n => if m[k][k] != 0.0 && k < i then v[i] - m[i][k] / m[k][k] * v[k] else v[i])
  }

  datatype System = System(a: Matrix, b: seq<real>)

  /** The system after steps `0..k - 1` of forward elimination. */
  ghost function Eliminate(m0: Matrix, v0: seq<real>, n: nat, k: nat): (s: System)
    requires Shaped(m0, n, n) && |v0| == n && (k < n || k == 0)
    ensures Shaped(s.a, n, n) && |s.b| == n
  {
    if k == 0 then System(m0, v0)
    else
      var s := Eliminate(m0, v0, n, k - 1);
      System(StepA(s.a, n, k - 1), StepB(s.b, s.a, n, k - 1))
  }

  /** The number of steps `forward_elimination` takes: `k = 0..n - 2`. */
  function Steps(n: nat): (s: nat)
    ensures s < n || s == 0
    ensures n > 0 ==> s + 1 == n
  {
    if n == 0 then 0 else n - 1
  }

  /** A step with a zero pivot changes nothing. */
  lemma StepZeroPivot(m: Matrix, v: seq<real>, n: nat, k: int)
    requires Shaped(m, n, n) && |v| == n && 0 <= k < n && m[k][k] == 0.0
    ensures StepA(m, n, k) == m && StepB(v, m, n, k) == v
  {
    forall i | 0 <= i < n
      ensures StepA(m, n, k)[i] == m[i]
    {
    }
  }

  /** Because the `j` loop starts at `k`, a step with a nonzero pivot clears column `k` below it. */
  lemma StepClearsColumn(m: Matrix, n: nat, k: int, i: int)
    requires Shaped(m, n, n) && 0 <= k < i < n && m[k][k] != 0.0
    ensures StepA(m, n, k)[i][k] == 0.0
  {
    DivCancel(m[k][k], m[i][k]);
    assert m[i][k] / m[k][k] * m[k][k] == m[i][k];
  }

  /** Step `k` writes only rows `i > k` from column `k` on, and `b[i]` for `i > k`. */
  lemma StepFrame(m: Matrix, v: seq<real>, n: nat, k: int, i: int, j: int)
    requires Shaped(m, n, n) && |v| == n && 0 <= k < n && 0 <= i < n && 0 <= j < n
    requires i <= k || j < k
    ensures StepA(m, n, k)[i][j] == m[i][j]
    ensures i <= k ==> StepB(v, m, n, k)[i] == v[i]
  {
  }

  /** The pivot step `c` used: the diagonal entry `(c, c)` after steps `0..c - 1`. */
  ghost function PivotAt(m0: Matrix, v0: seq<real>, n: nat, c: nat): real
    requires Shaped(m0, n, n) && |v0| == n && c < n
  {
    Eliminate(m0, v0, n, c).a[c][c]
  }

  /**
   * After steps `0..k - 1`, column `c < k` is zero below the diagonal
   * whenever step `c` had a nonzero pivot: later steps never write it.
   */
  lemma {:induction false} EliminateClears(m0: Matrix, v0: seq<real>, n: nat, k: nat, c: nat, i: int)
    requires Shaped(m0, n, n) && |v0| == n && c < k < n && c < i < n
    requires PivotAt(m0, v0, n, c) != 0.0
    ensures Eliminate(m0, v0, n, k).a[i][c] == 0.0
    decreases k
  {
    var s := Eliminate(m0, v0, n, k - 1);
    if k - 1 == c {
      StepClearsColumn(s.a, n, c, i);
    } else {
      EliminateClears(m0, v0, n, k - 1, c, i);
      StepFrame(s.a, s.b, n, k - 1, i, c);
    }
  }

  /** Rows before `i` finished by step `k`, and row `i` in columns before `j`. */
  ghost predicate EliminatedTo(a: array2<real>, m: Matrix, n: nat, k: int, i: int, j: int)
    reads a
    requires a.Length0 == a.Length1 == n && Shaped(m, n, n) && 0 <= k < n
  {
    forall r, c :: 0 <= r < n && 0 <= c < n ==>
      a[r, c] == (if r < i || (r == i && c < j) then StepEntry(m, n, k, r, c) else m[r][c])
  }

  /** `b[0..i - 1]` finished by step `k`. */
  ghost predicate RhsTo(b: array<real>, v: seq<real>, m: Matrix, n: nat, k: int, i: int)
    reads b
    requires b.Length == |v| == n && Shaped(m, n, n) && 0 <= k < n
  {
    forall r :: 0 <= r < n ==> b[r] == (if r < i then StepB(v, m, n, k)[r] else v[r])
  }

  /** Columns before `k` of a row are left alone, so the `j` loop may start at `k`. */
  lemma RowStart(a: array2<real>, m: Matrix, n: nat, k: int, i: int)
    requires a.Length0 == a.Length1 == n && Shaped(m, n, n) && 0 <= k < i < n
    requires EliminatedTo(a, m, n, k, i, 0)
    ensures EliminatedTo(a, m, n, k, i, k)
  {
  }

  /** A row finished in every column is a finished row. */
  lemma RowEnd(a: array2<real>, m: Matrix, n: nat, k: int, i: int)
    requires a.Length0 == a.Length1 == n && Shaped(m, n, n) && 0 <= k < n && 0 <= i < n
    requires EliminatedTo(a, m, n, k, i, n)
    ensures EliminatedTo(a, m, n, k, i + 1, 0)
  {
  }

  /** A row left alone under a zero pivot is a finished row. */
  lemma RowSkipped(a: array2<real>, m: Matrix, n: nat, k: int, i: int)
    requires a.Length0 == a.Length1 == n && Shaped(m, n, n) && 0 <= k < n && 0 <= i < n && m[k][k] == 0.0
    requires EliminatedTo(a, m, n, k, i, 0)
    ensures EliminatedTo(a, m, n, k, i + 1, 0)
  {
  }

  /** The `j` loop for row `i`: `A[i][j] -= factor * A[k][j]` for `j = k..n - 1`. */
  method UpdateRow(a: array2<real>, n: nat, k: int, i: int, factor: real, ghost m: Matrix)
    requires a.Length0 == a.Length1 == n && 0 <= k < i < n
    requires Shaped(m, n, n) && m[k][k] != 0.0 && factor == m[i][k] / m[k][k]
    requires EliminatedTo(a, m, n, k, i, k)
    modifies a
    ensures EliminatedTo(a, m, n, k, i, n)
  {
    for j := k to n
      invariant EliminatedTo(a, m, n, k, i, j)
    {
      assert a[k, j] == m[k][j] && a[i, j] == m[i][j];
      var w := a[i, j] - factor * a[k, j];
      assert w == StepEntry(m, n, k, i, j);
      a[i, j] := w;
    }
  }

  /** Row `i` of step `k` with a nonzero pivot: the factor, the `j` loop and `b[i]`. */
  method EliminateRow(a: array2<real>, b: array<real>, n: nat, k: int, i: int, ghost m: Matrix, ghost v: seq<real>)
    requires a.Length0 == a.Length1 == n && b.Length == |v| == n && 0 <= k < i < n
    requires Shaped(m, n, n) && m[k][k] != 0.0
    requires EliminatedTo(a, m, n, k, i, 0) && RhsTo(b, v, m, n, k, i)
    modifies a, b
    ensures EliminatedTo(a, m, n, k, i + 1, 0) && RhsTo(b, v, m, n, k, i + 1)
  {
    assert a[k, k] == m[k][k] && a[i, k] == m[i][k] && b[k] == v[k] && b[i] == v[i];
    var factor := a[i, k] / a[k, k];
    RowStart(a, m, n, k, i);
    UpdateRow(a, n, k, i, factor, m);
    RowEnd(a, m, n, k, i);
    b[i] := b[i] - factor * b[k];
  }

  /** Step `k` of `forward_elimination`: every row below `k` is skipped when `A[k][k]` is zero. */
  method EliminateStep(a: array2<real>, b: array<real>, n: nat, k: int)
    requires a.Length0 == a.Length1 == n && b.Length == n && 0 <= k < n
    modifies a, b
    ensures Shaped(old(Rows(a)), n, n) && Holds(a, StepA(old(Rows(a)), n, k))
    ensures b[..] == StepB(old(b[..]), old(Rows(a)), n, k)
  {
    ghost var m, v := Rows(a), b[..];
    for i := k + 1 to n
      invariant EliminatedTo(a, m, n, k, i, 0) && RhsTo(b, v, m, n, k, i)
    {
      assert a[k, k] == m[k][k];
      if a[k, k] == 0.0 {
        RowSkipped(a, m, n, k, i);
        continue;
      }
      EliminateRow(a, b, n, k, i, m, v);
    }
  }

  /** `forward_elimination`: steps `k = 0..n - 2` in place. */
  method ForwardElimination(a: array2<real>, b: array<real>, n: nat)
    requires a.Length0 == a.Length1 == n && b.Length == n
    modifies a, b
    ensures Shaped(old(Rows(a)), n, n)
    ensures Eliminate(old(Rows(a)), old(b[..]), n, Steps(n)) == System(Rows(a), b[..])
  {
    ghost var m0, v0 := Rows(a), b[..];
    var k := 0;
    while k < n - 1
      invariant 0 <= k <= Steps(n)
      invariant Eliminate(m0, v0, n, k) == System(Rows(a), b[..])
    {
      ghost var s, sb := Rows(a), b[..];
      EliminateStep(a, b, n, k);
      HoldsIsRows(a, StepA(s, n, k));
      ghost var e := Eliminate(m0, v0, n, k + 1);
      assert e == System(StepA(s, n, k), StepB(sb, s, n, k));
      k := k + 1;
    }
  }

  /** A C `double` that is a number or NaN. */
  datatype Double = Finite(r: real) | NaN

  function Value(d: Double): real
  {
    if d.Finite? then d.r else 0.0
  }

  /** `A[i][i + 1] * x[i + 1] + ... + A[i][j - 1] * x[j - 1]`, accumulated from the left. */
  ghost function RowTail(m: Matrix, n: nat, i: int, x: seq<Double>, j: int): real
    requires Shaped(m, n, n) && |x| == n && 0 <= i < n && j <= n
    decreases j
  {
    if j <= i + 1 then 0.0 else RowTail(m, n, i, x, j - 1) + m[i][j - 1] * Value(x[j - 1])
  }

  /** The tail of row `i` only reads `x[i + 1..j - 1]`. */
  lemma {:induction false} RowTailFrame(m: Matrix, n: nat, i: int, x: seq<Double>, x': seq<Double>, j: int)
    requires Shaped(m, n, n) && |x| == |x'| == n && 0 <= i < n && j <= n
    requires forall j' :: i < j' < j ==> x[j'] == x'[j']
    ensures RowTail(m, n, i, x, j) == RowTail(m, n, i, x', j)
    decreases j
  {
    if j > i + 1 {
      RowTailFrame(m, n, i, x, x', j - 1);
    }
  }

  /** Row `r` holds for `x`: `x[r]` is a number and `x[r] * A[r][r] = b[r] - tail`. */
  ghost predicate RowSolved(m: Matrix, v: seq<real>, x: seq<Double>, n: nat, r: int)
    requires Shaped(m, n, n) && |v| == |x| == n && 0 <= r < n
  {
    x[r].Finite? && x[r].r * m[r][r] == v[r] - RowTail(m, n, r, x, n)
  }

  /** Rows `i..n - 1` hold for `x`. */
  ghost predicate SolvedFrom(m: Matrix, v: seq<real>, x: seq<Double>, n: nat, i: int)
    requires Shaped(m, n, n) && |v| == |x| == n && 0 <= i
  {
    forall r :: i <= r < n ==> RowSolved(m, v, x, n, r)
  }

  /** A row stays solved when only entries of `x` before it change. */
  lemma RowSolvedFrame(m: Matrix, v: seq<real>, x: seq<Double>, x': seq<Double>, n: nat, r: int)
    requires Shaped(m, n, n) && |v| == |x| == |x'| == n && 0 <= r < n
    requires forall j :: r <= j < n ==> x[j] == x'[j]
    requires RowSolved(m, v, x, n, r)
    ensures RowSolved(m, v, x', n, r)
  {
    RowTailFrame(m, n, r, x, x', n);
  }

  /** Writing row `i`'s value keeps rows `i + 1..n - 1` solved and solves row `i`. */
  lemma BackStep(m: Matrix, v: seq<real>, x: seq<Double>, n: nat, i: int, t: real)
    requires Shaped(m, n, n) && |v| == |x| == n && 0 <= i < n
    requires SolvedFrom(m, v, x, n, i + 1) && t * m[i][i] == v[i] - RowTail(m, n, i, x, n)
    ensures SolvedFrom(m, v, x[i := Finite(t)], n, i)
  {
    var x' := x[i := Finite(t)];
    forall r | i < r < n
      ensures RowSolved(m, v, x', n, r)
    {
      RowSolvedFrame(m, v, x, x', n, r);
    }
    RowTailFrame(m, n, i, x, x', n);
    assert x'[i] == Finite(t);
  }

  /** The `sum` loop of row `i`. */
  method RowSum(a: array2<real>, x: array<Double>, n: nat, i: int) returns (sum: real)
    requires a.Length0 == a.Length1 == x.Length == n && 0 <= i < n
    requires forall j :: i < j < n ==> x[j].Finite?
    ensures Shaped(Rows(a), n, n) && sum == RowTail(Rows(a), n, i, x[..], n)
  {
    sum := 0.0;
    for j := i + 1 to n
      invariant sum == RowTail(Rows(a), n, i, x[..], j)
    {
      sum := sum + a[i, j] * x[j].r;
    }
  }

  /** Every entry of `x` becomes NaN. */
  method Flood(x: array<Double>, n: nat)
    requires x.Length == n
    modifies x
    ensures forall k :: 0 <= k < n ==> x[k] == NaN
  {
    for k := 0 to n
      invariant forall k' :: 0 <= k' < k ==> x[k'] == NaN
    {
      x[k] := NaN;
    }
  }

  /**
   * `backward_substitution`: `A` and `b` are only read. If some diagonal
   * entry is zero, every entry of `x` is NaN, the ones already computed
   * included; otherwise `x` solves the upper triangular system exactly.
   */
  method BackwardSubstitution(a: array2<real>, b: array<real>, x: array<Double>, n: nat)
    requires a.Length0 == a.Length1 == b.Length == x.Length == n && n >= 1
    modifies x
    ensures Shaped(Rows(a), n, n)
    ensures (exists i :: 0 <= i < n && a[i, i] == 0.0) ==> forall k :: 0 <= k < n ==> x[k] == NaN
    ensures (forall i :: 0 <= i < n ==> a[i, i] != 0.0) ==> SolvedFrom(Rows(a), b[..], x[..], n, 0)
  {
    ghost var m := Rows(a);
    if a[n - 1, n - 1] == 0.0 {
      Flood(x, n);
      return;
    }
    var t := b[n - 1] / a[n - 1, n - 1];
    SolveAt(m, b[..], x[..], n, n - 1, t);
    x[n - 1] := Finite(t);
    var i := n - 2;
    while i >= 0
      invariant -1 <= i <= n - 2
      invariant SolvedFrom(m, b[..], x[..], n, i + 1)
      invariant forall r :: i < r < n ==> a[r, r] != 0.0 && x[r].Finite?
    {
      var sum := RowSum(a, x, n, i);
      if a[i, i] == 0.0 {
        Flood(x, n);
        return;
      }
      t := (b[i] - sum) / a[i, i];
      SolveAt(m, b[..], x[..], n, i, t);
      x[i] := Finite(t);
      i := i - 1;
    }
  }

  /** Dividing by the nonzero diagonal entry solves row `i`. */
  lemma SolveAt(m: Matrix, v: seq<real>, x: seq<Double>, n: nat, i: int, t: real)
    requires Shaped(m, n, n) && |v| == |x| == n && 0 <= i < n && m[i][i] != 0.0
    requires SolvedFrom(m, v, x, n, i + 1) && t == (v[i] - RowTail(m, n, i, x, n)) / m[i][i]
    ensures SolvedFrom(m, v, x[i := Finite(t)], n, i)
  {
    DivCancel(m[i][i], v[i] - RowTail(m, n, i, x, n));
    BackStep(m, v, x, n, i, t);
  }
}
