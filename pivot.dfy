/**
 * Gaussian elimination with partial pivoting, `gauss` of 3_kadai/3.c.
 *
 * The `N x N` system, `N = 4`, is 1-based: `a` is an `(N + 1) x (N + 1)`
 * array and `b` an array of `N + 1` entries whose row and column 0 are
 * allocated and never used. Each step `k = 1..N - 1` picks as pivot row the
 * first row `ip` in `k..N` whose entry in column `k` is largest in magnitude,
 * stops when that magnitude is below `EPS`, swaps rows `k` and `ip` from
 * column `k` on (and `b[k]`, `b[ip]`), and eliminates below the pivot. Back
 * substitution then overwrites `b` with the solution of the reduced upper
 * triangular system.
 */
module PartialPivoting {
  import opened Vectors

  const N: int := 4

  /** The regularity threshold 2^-50. */
  const EPS: real := 1.0 / 1125899906842624.0

  type Matrix = seq<seq<real>>

  /** An `(N + 1) x (N + 1)` matrix, row and column 0 unused. */
  ghost predicate Square(m: Matrix)
  {
    Shaped(m, N + 1, N + 1)
  }

  /**
   * `ip` is the pivot row of step `k`: in `k..N`, its entry in column `k` is
   * largest in magnitude, and every row before it is strictly smaller, as
   * the strict `>` of the search keeps the first maximum.
   */
  ghost predicate IsPivot(m: Matrix, k: int, ip: int)
    requires Square(m) && 1 <= k <= N
  {
    k <= ip <= N
    && (forall i :: k <= i <= N ==> Abs(m[i][k]) <= Abs(m[ip][k]))
    && (forall i :: k <= i < ip ==> Abs(m[i][k]) < Abs(m[ip][k]))
  }

  /** No row at least as large as the pivot row comes before it. */
  lemma PivotFirst(m: Matrix, k: int, p: int, q: int)
    requires Square(m) && 1 <= k <= N && IsPivot(m, k, p) && k <= q <= N
    requires Abs(m[p][k]) <= Abs(m[q][k])
    ensures p <= q
  {
  }

  /** There is at most one pivot row. */
  lemma PivotUnique(m: Matrix, k: int, p: int, q: int)
    requires Square(m) && 1 <= k <= N && IsPivot(m, k, p) && IsPivot(m, k, q)
    ensures p == q
  {
    PivotFirst(m, k, p, q);
    PivotFirst(m, k, q, p);
  }

  /** The first row in `k..i` whose entry in column `k` is largest in magnitude. */
  ghost function FirstMax(m: Matrix, k: int, i: int): (p: int)
    requires Square(m) && 1 <= k <= i <= N
    ensures k <= p <= i
    ensures forall r :: k <= r <= i ==> Abs(m[r][k]) <= Abs(m[p][k])
    ensures forall r :: k <= r < p ==> Abs(m[r][k]) < Abs(m[p][k])
    decreases i
  {
    if i == k then k
    else
      var p := FirstMax(m, k, i - 1);
      if Abs(m[i][k]) > Abs(m[p][k]) then i else p
  }

  /** The pivot row of step `k`. */
  ghost function Pivot(m: Matrix, k: int): (ip: int)
    requires Square(m) && 1 <= k <= N
    ensures IsPivot(m, k, ip)
  {
    FirstMax(m, k, N)
  }

  /** Entry `(i, j)` once rows `k` and `ip` are exchanged from column `k` on; columns before `k` stay. */
  ghost function SwapEntry(m: Matrix, k: int, ip: int, i: int, j: int): real
    requires Square(m) && 1 <= k <= ip <= N && 0 <= i <= N && 0 <= j <= N
  {
    if j < k then m[i][j]
    else if i == k then m[ip][j]
    else if i == ip then m[k][j]
    else m[i][j]
  }

  ghost function SwapA(m: Matrix, k: int, ip: int): (m': Matrix)
    requires Square(m) && 1 <= k <= ip <= N
    ensures Square(m')
  {
    seq(N + 1, i requires 0 <= i <= N => seq(N + 1, j requires 0 <= j <= N => SwapEntry(m, k, ip, i, j)))
  }

  ghost function SwapB(v: seq<real>, k: int, ip: int): (v': seq<real>)
    requires |v| == N + 1 && 1 <= k <= ip <= N
    ensures |v'| == N + 1
  {
    v[k := v[ip]][ip := v[k]]
  }

  /** Swapping a row with itself changes nothing, so skipping the swap when `ip == k` agrees. */
  lemma SwapSelf(m: Matrix, v: seq<real>, k: int)
    requires Square(m) && |v| == N + 1 && 1 <= k <= N
    ensures SwapA(m, k, k) == m && SwapB(v, k, k) == v
  {
    forall i | 0 <= i <= N
      ensures SwapA(m, k, k)[i] == m[i]
    {
    }
  }

  /**
   * Elimination below pivot `(k, k)`: entry `(i, j)`, `i, j > k`, loses
   * `a(i, k) / a(k, k)` times `a(k, j)`. Column `k` below the pivot is not
   * cleared; it keeps its old entries.
   */
  ghost function ElimEntry(m: Matrix, k: int, i: int, j: int): real
    requires Square(m) && 1 <= k < N && m[k][k] != 0.0 && 0 <= i <= N && 0 <= j <= N
  {
    if k < i && k < j then m[i][j] - m[i][k] / m[k][k] * m[k][j] else m[i][j]
  }

  ghost function ElimA(m: Matrix, k: int): (m': Matrix)
    requires Square(m) && 1 <= k < N && m[k][k] != 0.0
    ensures Square(m')
  {
    seq(N + 1, i requires 0 <= i <= N => seq(N + 1, j requires 0 <= j <= N => ElimEntry(m, k, i, j)))
  }

  ghost function ElimB(v: seq<real>, m: Matrix, k: int): (v': seq<real>)
    requires Square(m) && |v| == N + 1 && 1 <= k < N && m[k][k] != 0.0
    ensures |v'| == N + 1
  {
    seq(N + 1, i requires 0 <= i <= N => if k < i then v[i] - m[i][k] / m[k][k] * v[k] else v[i])
  }

  /** Step `k` writes only entries `(i, j)` with `i, j > k` and `b[i]` with `i > k`. */
  lemma ElimFrame(m: Matrix, v: seq<real>, k: int, i: int, j: int)
    requires Square(m) && |v| == N + 1 && 1 <= k < N && m[k][k] != 0.0
    requires 0 <= i <= N && 0 <= j <= N && (i <= k || j <= k)
    ensures ElimA(m, k)[i][j] == m[i][j]
    ensures i <= k ==> ElimB(v, m, k)[i] == v[i]
  {
  }

  datatype Elimination = Reduced(a: Matrix, b: seq<real>) | Stopped(step: int)

  /**
   * Forward elimination through step `k`: pivot search, the abort when the
   * pivot is below `EPS` in magnitude, the swap and the elimination.
   */
  ghost function Reduce(m0: Matrix, v0: seq<real>, k: nat): (e: Elimination)
    requires Square(m0) && |v0| == N + 1 && k < N
    ensures e.Reduced? ==> Square(e.a) && |e.b| == N + 1
    ensures e.Stopped? ==> 1 <= e.step <= k
  {
    if k == 0 then Reduced(m0, v0)
    else
      match Reduce(m0, v0, k - 1)
      case Stopped(s) => Stopped(s)
      case Reduced(m, v) =>
        var ip := Pivot(m, k);
        if Abs(m[ip][k]) < EPS then Stopped(k)
        else
          var m', v' := SwapA(m, k, ip), SwapB(v, k, ip);
          Reduced(ElimA(m', k), ElimB(v', m', k))
  }

  /** The pivot search of step `k`. */
  method PivotSearch(a: array2<real>, k: int) returns (ip: int, amax: real)
    requires a.Length0 == a.Length1 == N + 1 && 1 <= k <= N
    ensures IsPivot(Rows(a), k, ip) && amax == Abs(a[ip, k])
  {
    amax := Abs(a[k, k]);
    ip := k;
    for i := k + 1 to N + 1
      invariant k <= ip < i && amax == Abs(a[ip, k])
      invariant forall r :: k <= r < i ==> Abs(a[r, k]) <= amax
      invariant forall r :: k <= r < ip ==> Abs(a[r, k]) < amax
    {
      if Abs(a[i, k]) > amax {
        amax := Abs(a[i, k]);
        ip := i;
      }
    }
  }

  /** Rows `k` and `ip` of `m` exchanged in columns `k..j - 1`. */
  ghost predicate SwappedTo(a: array2<real>, m: Matrix, k: int, ip: int, j: int)
    reads a
    requires a.Length0 == a.Length1 == N + 1 && Square(m) && 1 <= k <= ip <= N
  {
    forall r, c :: 0 <= r <= N && 0 <= c <= N ==>
      a[r, c] == (if c < j then SwapEntry(m, k, ip, r, c) else m[r][c])
  }

  /** The row exchange of step `k`, entered only when `ip != k`. */
  method SwapRows(a: array2<real>, b: array<real>, k: int, ip: int)
    requires a.Length0 == a.Length1 == N + 1 && b.Length == N + 1 && 1 <= k < ip <= N
    modifies a, b
    ensures Holds(a, SwapA(old(Rows(a)), k, ip))
    ensures b[..] == SwapB(old(b[..]), k, ip)
  {
    ghost var m, v := Rows(a), b[..];
    for j := k to N + 1
      invariant SwappedTo(a, m, k, ip, j) && b[..] == v
    {
      var tmp := a[k, j];
      a[k, j] := a[ip, j];
      a[ip, j] := tmp;
    }
    var tmp := b[k];
    b[k] := b[ip];
    b[ip] := tmp;
    assert b[..] == v[k := v[ip]][ip := v[k]];
  }

  /** Rows `k + 1..i - 1` of `m` eliminated by step `k`, and row `i` in columns before `j`. */
  ghost predicate EliminatedTo(a: array2<real>, m: Matrix, k: int, i: int, j: int)
    reads a
    requires a.Length0 == a.Length1 == N + 1 && Square(m) && 1 <= k < N && m[k][k] != 0.0
  {
    forall r, c :: 0 <= r <= N && 0 <= c <= N ==>
      a[r, c] == (if r < i || (r == i && c < j) then ElimEntry(m, k, r, c) else m[r][c])
  }

  /** `b[k + 1..i - 1]` updated by step `k`. */
  ghost predicate RhsTo(b: array<real>, v: seq<real>, m: Matrix, k: int, i: int)
    reads b
    requires b.Length == |v| == N + 1 && Square(m) && 1 <= k < N && m[k][k] != 0.0
  {
    forall r :: 0 <= r <= N ==> b[r] == (if r < i then ElimB(v, m, k)[r] else v[r])
  }

  /** The columns up to `k` of a row are left alone, so the `j` loop may start at `k + 1`. */
  lemma RowStart(a: array2<real>, m: Matrix, k: int, i: int)
    requires a.Length0 == a.Length1 == N + 1 && Square(m) && 1 <= k < i <= N && m[k][k] != 0.0
    requires EliminatedTo(a, m, k, i, 0)
    ensures EliminatedTo(a, m, k, i, k + 1)
  {
  }

  /** A row finished in every column is a finished row. */
  lemma RowEnd(a: array2<real>, m: Matrix, k: int, i: int)
    requires a.Length0 == a.Length1 == N + 1 && Square(m) && 1 <= k < N && 0 <= i <= N && m[k][k] != 0.0
    requires EliminatedTo(a, m, k, i, N + 1)
    ensures EliminatedTo(a, m, k, i + 1, 0)
  {
  }

  /** The `j` loop of step `k` for row `i`, and the update of `b[i]`. */
  method EliminateRow(a: array2<real>, b: array<real>, k: int, i: int, ghost m: Matrix, ghost v: seq<real>)
    requires a.Length0 == a.Length1 == N + 1 && b.Length == |v| == N + 1 && 1 <= k < i <= N
    requires Square(m) && m[k][k] != 0.0
    requires EliminatedTo(a, m, k, i, 0) && RhsTo(b, v, m, k, i)
    modifies a, b
    ensures EliminatedTo(a, m, k, i + 1, 0) && RhsTo(b, v, m, k, i + 1)
  {
    assert a[k, k] == m[k][k] && a[i, k] == m[i][k] && b[k] == v[k] && b[i] == v[i];
    var alpha := a[i, k] / a[k, k];
    RowStart(a, m, k, i);
    UpdateRow(a, k, i, alpha, m);
    RowEnd(a, m, k, i);
    b[i] := b[i] - alpha * b[k];
  }

  /** The `j` loop of step `k` for row `i`: `a(i, j) -= alpha * a(k, j)` for `j = k + 1..N`. */
  method UpdateRow(a: array2<real>, k: int, i: int, alpha: real, ghost m: Matrix)
    requires a.Length0 == a.Length1 == N + 1 && 1 <= k < i <= N
    requires Square(m) && m[k][k] != 0.0 && alpha == m[i][k] / m[k][k]
    requires EliminatedTo(a, m, k, i, k + 1)
    modifies a
    ensures EliminatedTo(a, m, k, i, N + 1)
  {
    for j := k + 1 to N + 1
      invariant EliminatedTo(a, m, k, i, j)
    {
      assert a[k, j] == m[k][j] && a[i, j] == m[i][j];
      var w := a[i, j] - alpha * a[k, j];
      assert w == ElimEntry(m, k, i, j);
      a[i, j] := w;
    }
  }

  /** The elimination of step `k` below the pivot. */
  method EliminateBelow(a: array2<real>, b: array<real>, k: int)
    requires a.Length0 == a.Length1 == N + 1 && b.Length == N + 1 && 1 <= k < N && a[k, k] != 0.0
    modifies a, b
    ensures Holds(a, ElimA(old(Rows(a)), k))
    ensures b[..] == ElimB(old(b[..]), old(Rows(a)), k)
  {
    ghost var m, v := Rows(a), b[..];
    for i := k + 1 to N + 1
      invariant EliminatedTo(a, m, k, i, 0) && RhsTo(b, v, m, k, i)
    {
      EliminateRow(a, b, k, i, m, v);
    }
  }

  /** The pivots `(1, 1)` .. `(k - 1, k - 1)` all have size at least `EPS`. */
  ghost predicate PivotsBefore(m: Matrix, k: int)
    requires Square(m) && k <= N + 1
  {
    forall k' :: 1 <= k' < k ==> Abs(m[k'][k']) >= EPS
  }

  /**
   * Step `k` with pivot row `ip` leaves every diagonal entry before `k` as
   * it was, and puts the pivot, of size at least `EPS`, at `(k, k)`.
   */
  lemma StepKeepsPivots(m: Matrix, k: int, ip: int)
    requires Square(m) && 1 <= k < N && IsPivot(m, k, ip)
    requires PivotsBefore(m, k) && Abs(m[ip][k]) >= EPS
    ensures SwapA(m, k, ip)[k][k] == m[ip][k]
    ensures PivotsBefore(ElimA(SwapA(m, k, ip), k), k + 1)
  {
    var m' := SwapA(m, k, ip);
    assert m'[k][k] == m[ip][k];
    forall k' | 1 <= k' <= k
      ensures ElimA(m', k)[k'][k'] == m'[k'][k']
    {
    }
  }

  /**
   * A pivot below `EPS` after `k - 1` steps stops the elimination at step
   * `k`, and it stays stopped there through every later step.
   */
  lemma {:induction false} StopsAt(m0: Matrix, v0: seq<real>, k: nat, k2: nat, m: Matrix, v: seq<real>)
    requires Square(m0) && |v0| == N + 1 && 1 <= k <= k2 < N
    requires Reduce(m0, v0, k - 1) == Reduced(m, v) && Abs(m[Pivot(m, k)][k]) < EPS
    ensures Reduce(m0, v0, k2) == Stopped(k)
    decreases k2
  {
    if k < k2 {
      StopsAt(m0, v0, k, k2 - 1, m, v);
    }
  }

  /**
   * One step of the forward elimination: the pivot search, then either the
   * abort, which changes nothing, or the swap (skipped when `ip == k`) and
   * the elimination, which move the arrays from `Reduce(k - 1)` to
   * `Reduce(k)`.
   */
  method ForwardStep(a: array2<real>, b: array<real>, k: int, ghost m0: Matrix, ghost v0: seq<real>) returns (small: bool)
    requires a.Length0 == a.Length1 == N + 1 && b.Length == |v0| == N + 1 && Square(m0) && 1 <= k < N
    requires Reduce(m0, v0, k - 1) == Reduced(Rows(a), b[..]) && PivotsBefore(Rows(a), k)
    modifies a, b
    ensures small ==> Reduce(m0, v0, k) == Stopped(k) && Rows(a) == old(Rows(a)) && b[..] == old(b[..])
    ensures !small ==> Reduce(m0, v0, k) == Reduced(Rows(a), b[..]) && PivotsBefore(Rows(a), k + 1)
  {
    ghost var m, v := Rows(a), b[..];
    var ip, amax := PivotSearch(a, k);
    PivotUnique(m, k, ip, Pivot(m, k));
    if amax < EPS {
      StopsAt(m0, v0, k, k, m, v);
      return true;
    }
    ghost var m', v' := SwapA(m, k, ip), SwapB(v, k, ip);
    if ip != k {
      SwapRows(a, b, k, ip);
    } else {
      SwapSelf(m, v, k);
      HoldsRows(a);
    }
    HoldsIsRows(a, m');
    StepKeepsPivots(m, k, ip);
    EliminateBelow(a, b, k);
    HoldsIsRows(a, ElimA(m', k));
    ghost var e := Reduce(m0, v0, k);
    assert e == Reduced(ElimA(m', k), ElimB(v', m', k));
    return false;
  }

  /**
   * What forward elimination from `m0`, `v0` leaves: on an abort at `step`
   * the arrays the steps before it produced, whose pivots before `step`
   * passed; otherwise the arrays after steps `1..N - 1`, all of whose
   * pivots passed.
   */
  ghost predicate ForwardOutcome(m0: Matrix, v0: seq<real>, singular: bool, step: int, m: Matrix, v: seq<real>)
    requires Square(m0) && Square(m) && |v0| == |v| == N + 1
  {
    if singular then
      1 <= step < N && Reduce(m0, v0, N - 1) == Stopped(step)
      && Reduce(m0, v0, step - 1) == Reduced(m, v) && PivotsBefore(m, step)
    else
      Reduce(m0, v0, N - 1) == Reduced(m, v) && PivotsBefore(m, N)
  }

  /** The forward elimination of `gauss`: steps `k = 1..N - 1`, the source exiting on a small pivot. */
  method Forward(a: array2<real>, b: array<real>) returns (singular: bool, step: int)
    requires a.Length0 == a.Length1 == N + 1 && b.Length == N + 1
    modifies a, b
    ensures Square(old(Rows(a))) && Square(Rows(a))
    ensures ForwardOutcome(old(Rows(a)), old(b[..]), singular, step, Rows(a), b[..])
  {
    ghost var m0, v0 := Rows(a), b[..];
    for k := 1 to N
      invariant Reduce(m0, v0, k - 1) == Reduced(Rows(a), b[..])
      invariant PivotsBefore(Rows(a), k)
    {
      var small := ForwardStep(a, b, k, m0, v0);
      if small {
        return true, k;
      }
    }
    return false, 0;
  }

  /** `a(k, k + 1) * x[k + 1] + ... + a(k, j) * x[j]`, accumulated from the left. */
  ghost function RowTail(m: Matrix, k: int, x: seq<real>, j: int): real
    requires Square(m) && |x| == N + 1 && 1 <= k <= N && j <= N
    decreases j
  {
    if j <= k then 0.0 else RowTail(m, k, x, j - 1) + m[k][j] * x[j]
  }

  /** The tail of row `k` only reads `x[k + 1..j]`. */
  lemma {:induction false} RowTailFrame(m: Matrix, k: int, x: seq<real>, x': seq<real>, j: int)
    requires Square(m) && |x| == |x'| == N + 1 && 1 <= k <= N && j <= N
    requires forall j' :: k < j' <= j ==> x[j'] == x'[j']
    ensures RowTail(m, k, x, j) == RowTail(m, k, x', j)
    decreases j
  {
    if j > k {
      RowTailFrame(m, k, x, x', j - 1);
    }
  }

  /** `tmp` of the back substitution: `b[k]` minus the tail of row `k` against the solved `b[k + 1..N]`. */
  method BackRow(a: array2<real>, b: array<real>, k: int) returns (tmp: real)
    requires a.Length0 == a.Length1 == N + 1 && b.Length == N + 1 && 1 <= k <= N
    ensures Square(Rows(a)) && tmp == b[k] - RowTail(Rows(a), k, b[..], N)
  {
    tmp := b[k];
    for j := k + 1 to N + 1
      invariant tmp == b[k] - RowTail(Rows(a), k, b[..], j - 1)
    {
      tmp := tmp - a[k, j] * b[j];
    }
  }

  /** The left-hand side of row `k` of the reduced triangular system at `x`. */
  ghost function RowValue(m: Matrix, k: int, x: seq<real>): real
    requires Square(m) && |x| == N + 1 && 1 <= k <= N
  {
    m[k][k] * x[k] + RowTail(m, k, x, N)
  }

  /** Rows `k..N` of the triangular system hold for `x`, against right-hand side `x0`. */
  ghost predicate SolvedFrom(m: Matrix, x: seq<real>, x0: seq<real>, k: int)
    requires Square(m) && |x| == |x0| == N + 1 && 1 <= k
  {
    forall k' :: k <= k' <= N ==> RowValue(m, k', x) == x0[k']
  }

  /** Row `k'` reads only `x[k'..N]`. */
  lemma RowValueFrame(m: Matrix, k': int, x: seq<real>, x': seq<real>)
    requires Square(m) && |x| == |x'| == N + 1 && 1 <= k' <= N
    requires forall j :: k' <= j <= N ==> x[j] == x'[j]
    ensures RowValue(m, k', x) == RowValue(m, k', x')
  {
    RowTailFrame(m, k', x, x', N);
  }

  lemma RowValueAt(m: Matrix, k: int, x: seq<real>, v: real, t: real)
    requires Square(m) && |x| == N + 1 && 1 <= k <= N
    requires x[k] == v && RowTail(m, k, x, N) == t
    ensures RowValue(m, k, x) == m[k][k] * v + t
  {
  }

  /** Writing row `k`'s solution into `x[k]` keeps rows `k + 1..N` solved and solves row `k`. */
  lemma BackStep(m: Matrix, x: seq<real>, x': seq<real>, x0: seq<real>, k: int, v: real)
    requires Square(m) && |x| == |x0| == N + 1 && 1 <= k <= N
    requires SolvedFrom(m, x, x0, k + 1) && x' == x[k := v]
    requires m[k][k] * v == x0[k] - RowTail(m, k, x, N)
    ensures SolvedFrom(m, x', x0, k)
  {
    forall k' | k < k' <= N
      ensures RowValue(m, k', x') == x0[k']
    {
      RowValueFrame(m, k', x, x');
    }
    RowTailFrame(m, k, x, x', N);
    RowValueAt(m, k, x', v, RowTail(m, k, x, N));
  }

  /** Row `k` of the back substitution: `b[k] := (b[k] - tail) / a(k, k)`, once rows `k + 1..N` are solved. */
  method SolveRow(a: array2<real>, b: array<real>, k: int, ghost v0: seq<real>)
    requires a.Length0 == a.Length1 == N + 1 && b.Length == |v0| == N + 1 && 1 <= k <= N
    requires a[k, k] != 0.0 && Square(Rows(a))
    requires SolvedFrom(Rows(a), b[..], v0, k + 1) && b[k] == v0[k]
    modifies b
    ensures SolvedFrom(Rows(a), b[..], v0, k)
    ensures forall i :: 0 <= i < k ==> b[i] == old(b[i])
  {
    var tmp := BackRow(a, b, k);
    ghost var before := b[..];
    var v := tmp / a[k, k];
    DivCancel(a[k, k], tmp);
    b[k] := v;
    BackStep(Rows(a), before, b[..], v0, k, v);
  }

  /**
   * The back substitution of `gauss`. The pivots `1..N - 1` passed the
   * check of forward elimination; `a(N, N)` is divided by unchecked, so a
   * zero there is an outcome of its own, which leaves `b` as it was.
   * Otherwise `b` solves the reduced triangular system exactly.
   */
  method BackSubstitute(a: array2<real>, b: array<real>) returns (solved: bool)
    requires a.Length0 == a.Length1 == N + 1 && b.Length == N + 1
    requires Square(Rows(a)) && PivotsBefore(Rows(a), N)
    modifies b
    ensures solved <==> a[N, N] != 0.0
    ensures !solved ==> b[..] == old(b[..])
    ensures solved ==> SolvedFrom(Rows(a), b[..], old(b[..]), 1) && b[0] == old(b[0])
  {
    if a[N, N] == 0.0 {
      return false;
    }
    ghost var v0 := b[..];
    SolveRow(a, b, N, v0);
    var k := N - 1;
    while k >= 1
      invariant 0 <= k < N
      invariant SolvedFrom(Rows(a), b[..], v0, k + 1)
      invariant forall i :: 0 <= i <= k ==> b[i] == v0[i]
    {
      assert Abs(Rows(a)[k][k]) >= EPS;
      SolveRow(a, b, k, v0);
      k := k - 1;
    }
    solved := true;
  }

  /** How `gauss` ends: with the solution in `b`, by the abort at a step, or dividing by a zero `a(N, N)`. */
  datatype Outcome = Solved | Singular(step: int) | ZeroLastPivot

  /**
   * What `gauss` leaves, against forward elimination from `m0`, `v0`: an
   * abort exactly when elimination stops, and otherwise the reduced matrix
   * in `a` and, unless `a(N, N)` is zero, the solution of the reduced
   * triangular system in `b`.
   */
  ghost predicate GaussOutcome(m0: Matrix, v0: seq<real>, outcome: Outcome, m: Matrix, v: seq<real>)
    requires Square(m0) && Square(m) && |v0| == |v| == N + 1
  {
    match Reduce(m0, v0, N - 1)
    case Stopped(step) => outcome == Singular(step)
    case Reduced(rm, rv) =>
      m == rm && !outcome.Singular?
      && (outcome == ZeroLastPivot <==> m[N][N] == 0.0)
      && (outcome == ZeroLastPivot ==> v == rv)
      && (outcome == Solved ==> SolvedFrom(m, v, rv, 1) && v[0] == rv[0])
  }

  /** `gauss`: forward elimination with partial pivoting, then back substitution into `b`. */
  method Gauss(a: array2<real>, b: array<real>) returns (outcome: Outcome)
    requires a.Length0 == a.Length1 == N + 1 && b.Length == N + 1
    modifies a, b
    ensures Square(old(Rows(a))) && Square(Rows(a))
    ensures GaussOutcome(old(Rows(a)), old(b[..]), outcome, Rows(a), b[..])
  {
    var singular, step := Forward(a, b);
    if singular {
      return Singular(step);
    }
    var solved := BackSubstitute(a, b);
    outcome := if solved then Solved else ZeroLastPivot;
  }
}
