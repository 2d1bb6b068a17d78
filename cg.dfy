/**
 * The conjugate-gradient solver of CG/1.c.
 *
 * Vectors and the matrix use 1-based indexing as in the C code: a vector of
 * `N` unknowns is an array of length `N + 1` whose cell 0 is never used, and
 * the matrix is an `(N + 1) x (N + 1)` array whose row 0 and column 0 are
 * never used. `double` is modelled as `real`, so the identities below hold
 * exactly; whether the iteration converges within `KMAX` steps is not
 * modelled.
 */
module ConjugateGradient {
  import opened Vectors

  /** Number of unknowns. */
  const N: nat := 10
  /** Iteration cap. */
  const KMAX: nat := 100
  /** Convergence threshold on the 1-norm of the residual, 10^-8. */
  const EPS: real := 0.00000001

  ghost predicate IsVector(v: seq<real>) { |v| == N + 1 }

  ghost predicate IsMatrix(m: seq<seq<real>>)
  {
    |m| == N + 1 && forall i :: 0 <= i < |m| ==> |m[i]| == N + 1
  }

  /** The residual `b - A x`, on indices `1..N` (cell 0 is 0). */
  ghost function Residual(m: seq<seq<real>>, b: seq<real>, x: seq<real>): (r: seq<real>)
    requires IsMatrix(m) && IsVector(b) && IsVector(x)
    ensures IsVector(r)
    ensures forall i :: 1 <= i <= N ==> r[i] == b[i] - Inner(m[i], x, 1, N)
  {
    seq(N + 1, i requires 0 <= i <= N => if i == 0 then 0.0 else b[i] - Inner(m[i], x, 1, N))
  }

  /** The product `A v` on indices `1..N` (cell 0 is 0). */
  ghost function Apply(m: seq<seq<real>>, v: seq<real>): (w: seq<real>)
    requires IsMatrix(m) && IsVector(v)
    ensures IsVector(w)
    ensures forall i :: 1 <= i <= N ==> w[i] == Inner(m[i], v, 1, N)
  {
    seq(N + 1, i requires 0 <= i <= N => if i == 0 then 0.0 else Inner(m[i], v, 1, N))
  }

  /** `p . A p`, the divisor of the step length `alpha`. */
  ghost function Curvature(m: seq<seq<real>>, p: seq<real>): real
    requires IsMatrix(m) && IsVector(p)
  {
    Inner(p, Apply(m, p), 1, N)
  }

  /** `r` holds the residual of `x` on indices `1..N`. */
  ghost predicate IsResidualOf(m: seq<seq<real>>, b: seq<real>, x: seq<real>, r: seq<real>)
    requires IsMatrix(m) && IsVector(b) && IsVector(x) && IsVector(r)
  {
    forall i :: 1 <= i <= N ==> r[i] == b[i] - Inner(m[i], x, 1, N)
  }

  /** A vector that is the residual has the residual's 1-norm. */
  lemma ResidualNorm(m: seq<seq<real>>, b: seq<real>, x: seq<real>, r: seq<real>)
    requires IsMatrix(m) && IsVector(b) && IsVector(x) && IsVector(r) && IsResidualOf(m, b, x, r)
    ensures Norm1(r, 1, N) == Norm1(Residual(m, b, x), 1, N)
  {
    Norm1Frame(r, Residual(m, b, x), 1, N);
  }

  /** `inner_product`: accumulates `a[i] * b[i]` for `i` from `m` up to `n`. */
  method InnerProduct(m: int, n: int, a: array<real>, b: array<real>) returns (product: real)
    requires m <= n ==> 0 <= m && n < a.Length && n < b.Length
    ensures product == Inner(a[..], b[..], m, n)
    ensures product == Inner(b[..], a[..], m, n)
  {
    product := 0.0;
    var i := m;
    while i <= n
      invariant m <= i <= if m <= n then n + 1 else m
      invariant product == Inner(a[..], b[..], m, i - 1)
      decreases n - i
    {
      InnerStep(a[..], b[..], m, i);
      product := product + a[i] * b[i];
      i := i + 1;
    }
    InnerSymmetric(a[..], b[..], m, n);
  }

  /** `vector_norm1`: accumulates `|a[i]|` for `i` from `m` up to `n`. */
  method VectorNorm1(a: array<real>, m: int, n: int) returns (norm: real)
    requires m <= n ==> 0 <= m && n < a.Length
    ensures norm == Norm1(a[..], m, n)
    ensures norm >= 0.0
  {
    norm := 0.0;
    var i := m;
    while i <= n
      invariant m <= i <= if m <= n then n + 1 else m
      invariant norm == Norm1(a[..], m, i - 1)
      decreases n - i
    {
      Norm1Step(a[..], m, i);
      norm := norm + Abs(a[i]);
      i := i + 1;
    }
  }

  /**
   * `matrix_vector_product`: `c[i]` becomes row `i` of `a` times `b` for
   * `i` in `1..N`; `c[0]` is not written.
   */
  method MatrixVectorProduct(a: array2<real>, b: array<real>, c: array<real>)
    requires a.Length0 == a.Length1 == b.Length == c.Length == N + 1
    requires c != b
    modifies c
    ensures forall i :: 1 <= i <= N ==> c[i] == Inner(Rows(a)[i], b[..], 1, N)
    ensures c[0] == old(c[0])
  {
    ghost var m, v := Rows(a), b[..];
    for i := 1 to N + 1
      invariant forall q :: 1 <= q < i ==> c[q] == Inner(m[q], v, 1, N)
      invariant c[0] == old(c[0])
    {
      var wk := 0.0;
      for j := 1 to N + 1
        modifies {}
        invariant wk == Inner(m[i], v, 1, j - 1)
      {
        InnerStep(m[i], v, 1, j);
        wk := wk + a[i, j] * b[j];
      }
      c[i] := wk;
    }
  }

  /**
   * The initialisation loop of `cg`: with `tmp` holding `A x`, both `p` and
   * `r` become `b - A x`.
   */
  method InitResidual(a: array2<real>, b: array<real>, x: array<real>, tmp: array<real>, p: array<real>, r: array<real>)
    requires a.Length0 == a.Length1 == N + 1
    requires b.Length == x.Length == tmp.Length == p.Length == r.Length == N + 1
    requires tmp != x && p != r && p != b && r != b && p != x && r != x && p != tmp && r != tmp
    modifies tmp, p, r
    ensures IsResidualOf(Rows(a), b[..], x[..], r[..])
    ensures forall i :: 1 <= i <= N ==> p[i] == r[i]
  {
    MatrixVectorProduct(a, x, tmp);
    ghost var ax := tmp[..];
    for i := 1 to N + 1
      invariant tmp[..] == ax
      invariant forall q :: 1 <= q < i ==> p[q] == r[q] == b[q] - ax[q]
    {
      p[i] := b[i] - tmp[i];
      r[i] := p[i];
    }
  }

  /** Starting from the zero vector, as `main` does, the initial residual is `b` itself. */
  lemma ZeroStart(m: seq<seq<real>>, b: seq<real>, x: seq<real>)
    requires IsMatrix(m) && IsVector(b) && IsVector(x)
    requires forall i :: 1 <= i <= N ==> x[i] == 0.0
    ensures forall i :: 1 <= i <= N ==> Residual(m, b, x)[i] == b[i]
  {
    forall i | 1 <= i <= N
      ensures Inner(m[i], x, 1, N) == 0.0
    {
      InnerZero(m[i], x, 1, N);
    }
  }

  /** `v[i] := v[i] + alpha * w[i]` for `i` in `1..N` (the update of `x`). */
  method AddScaled(v: array<real>, alpha: real, w: array<real>)
    requires v.Length == w.Length == N + 1 && v != w
    modifies v
    ensures forall i :: 1 <= i <= N ==> v[i] == old(v[i]) + alpha * w[i]
    ensures v[0] == old(v[0])
  {
    for i := 1 to N + 1
      invariant forall q :: 1 <= q < i ==> v[q] == old(v[q]) + alpha * w[q]
      invariant forall q :: i <= q <= N || q == 0 ==> v[q] == old(v[q])
    {
      v[i] := v[i] + alpha * w[i];
    }
  }

  /** `v[i] := v[i] - alpha * w[i]` for `i` in `1..N` (the update of `r`). */
  method SubScaled(v: array<real>, alpha: real, w: array<real>)
    requires v.Length == w.Length == N + 1 && v != w
    modifies v
    ensures forall i :: 1 <= i <= N ==> v[i] == old(v[i]) - alpha * w[i]
    ensures v[0] == old(v[0])
  {
    for i := 1 to N + 1
      invariant forall q :: 1 <= q < i ==> v[q] == old(v[q]) - alpha * w[q]
      invariant forall q :: i <= q <= N || q == 0 ==> v[q] == old(v[q])
    {
      v[i] := v[i] - alpha * w[i];
    }
  }

  /** The search-direction update `p[i] := r[i] + beta * p[i]` for `i` in `1..N`. */
  method UpdateDirection(p: array<real>, r: array<real>, beta: real)
    requires p.Length == r.Length == N + 1 && p != r
    modifies p
    ensures forall i :: 1 <= i <= N ==> p[i] == r[i] + beta * old(p[i])
    ensures p[0] == old(p[0])
  {
    for i := 1 to N + 1
      invariant forall q :: 1 <= q < i ==> p[q] == r[q] + beta * old(p[q])
      invariant forall q :: i <= q <= N || q == 0 ==> p[q] == old(p[q])
    {
      p[i] := r[i] + beta * p[i];
    }
  }

  /**
   * One update of `x` and `r` keeps `r` the residual of `x`: with `tmp = A p`,
   * `x + alpha p` has residual `r - alpha tmp`.
   */
  lemma ResidualUpdate(m: seq<seq<real>>, b: seq<real>, x: seq<real>, r: seq<real>,
                       p: seq<real>, tmp: seq<real>, alpha: real, x': seq<real>, r': seq<real>)
    requires IsMatrix(m) && IsVector(b) && IsVector(x) && IsVector(r)
    requires IsVector(p) && IsVector(tmp) && IsVector(x') && IsVector(r')
    requires IsResidualOf(m, b, x, r)
    requires forall i :: 1 <= i <= N ==> tmp[i] == Inner(m[i], p, 1, N)
    requires forall i :: 1 <= i <= N ==> x'[i] == x[i] + alpha * p[i]
    requires forall i :: 1 <= i <= N ==> r'[i] == r[i] - alpha * tmp[i]
    ensures IsResidualOf(m, b, x', r')
  {
    forall i | 1 <= i <= N
      ensures r'[i] == b[i] - Inner(m[i], x', 1, N)
    {
      InnerLinear(m[i], x, alpha, p, x', 1, N);
      var ap := Inner(m[i], p, 1, N);
      assert tmp[i] == ap;
      assert r[i] == b[i] - Inner(m[i], x, 1, N);
      calc {
        r'[i];
        r[i] - alpha * tmp[i];
        b[i] - Inner(m[i], x, 1, N) - alpha * ap;
        b[i] - (Inner(m[i], x, 1, N) + alpha * ap);
      }
    }
  }

  /**
   * The two update loops of one iteration, `x := x + alpha p` and
   * `r := r - alpha tmp`; with `tmp = A p` they keep `r` the residual of `x`.
   */
  method Advance(ghost m: seq<seq<real>>, b: array<real>, x: array<real>, r: array<real>,
                 p: array<real>, tmp: array<real>, alpha: real)
    requires IsMatrix(m)
    requires b.Length == x.Length == r.Length == p.Length == tmp.Length == N + 1
    requires x != p && x != r && x != b && x != tmp && r != tmp && r != b && r != p
    requires IsResidualOf(m, b[..], x[..], r[..])
    requires forall i :: 1 <= i <= N ==> tmp[i] == Inner(m[i], p[..], 1, N)
    modifies x, r
    ensures forall i :: 1 <= i <= N ==> x[i] == old(x[i]) + alpha * p[i]
    ensures forall i :: 1 <= i <= N ==> r[i] == old(r[i]) - alpha * tmp[i]
    ensures x[0] == old(x[0]) && r[0] == old(r[0])
    ensures IsResidualOf(m, b[..], x[..], r[..])
  {
    ghost var x0, r0 := x[..], r[..];
    AddScaled(x, alpha, p);
    SubScaled(r, alpha, tmp);
    ResidualUpdate(m, b[..], x0, r0, p[..], tmp[..], alpha, x[..], r[..]);
  }

  /** How `cg` ends. */
  datatype Outcome =
    | Solved     // the residual's 1-norm fell below EPS before the KMAX-th iteration
    | NotFound   // the counter reached KMAX: the program reports failure and exits
    | Breakdown  // a zero curvature `p . A p`, the divisor at line 129

  /** How one pass of the loop body of `cg` ends. */
  datatype Step = Continue | Converged | BrokeDown

  /**
   * `x` and `r` moved from `x0` and `r0` along `p0` by the step length
   * `alpha = (r0 . r0) / (p0 . A p0)`: `x = x0 + alpha p0` and
   * `r = r0 - alpha A p0` on `1..N`.
   */
  ghost predicate Moved(m: seq<seq<real>>, x0: seq<real>, r0: seq<real>, p0: seq<real>, x: seq<real>, r: seq<real>)
    requires IsMatrix(m) && IsVector(x0) && IsVector(r0) && IsVector(p0) && IsVector(x) && IsVector(r)
    requires Curvature(m, p0) != 0.0
  {
    var alpha := Inner(r0, r0, 1, N) / Curvature(m, p0);
    forall i :: 1 <= i <= N ==> x[i] == x0[i] + alpha * p0[i] && r[i] == r0[i] - alpha * Apply(m, p0)[i]
  }

  /**
   * The new direction: `p = r + beta p0` on `1..N`, with
   * `beta = (r . r) / (r0 . r0)` the ratio of the new to the old `r . r`.
   */
  ghost predicate Turned(r0: seq<real>, p0: seq<real>, r: seq<real>, p: seq<real>)
    requires IsVector(r0) && IsVector(p0) && IsVector(r) && IsVector(p)
    requires Inner(r0, r0, 1, N) != 0.0
  {
    var beta := Inner(r, r, 1, N) / Inner(r0, r0, 1, N);
    forall i :: 1 <= i <= N ==> p[i] == r[i] + beta * p0[i]
  }

  /**
   * A pass that starts from a residual with `r . r = 0` (so `r = 0` and the
   * step length is 0) ends with a residual of 1-norm 0, so it converges:
   * the division by `rho` is never reached with `rho = 0`.
   */
  lemma VanishedResidual(m: seq<seq<real>>, x0: seq<real>, r0: seq<real>, p0: seq<real>, x: seq<real>, r: seq<real>)
    requires IsMatrix(m) && IsVector(x0) && IsVector(r0) && IsVector(p0) && IsVector(x) && IsVector(r)
    requires Curvature(m, p0) != 0.0 && Moved(m, x0, r0, p0, x, r)
    ensures Inner(r0, r0, 1, N) == 0.0 ==> Norm1(r, 1, N) == 0.0
  {
    if Inner(r0, r0, 1, N) == 0.0 {
      InnerSelfZero(r0, 1, N);
      assert forall i :: 1 <= i <= N ==> r[i] == 0.0;
      Norm1Zero(r, 1, N);
    }
  }

  /**
   * One pass of the loop body of `cg`. With `rho = r . r` and the curvature
   * `p . A p` of the old `r` and `p`, the step length is
   * `alpha = rho / (p . A p)`; `x` and `r` move by `alpha p` and
   * `alpha A p`; the pass converges when the new residual's 1-norm is below
   * `EPS`, and otherwise sets `p = r + (rho_new / rho) p` with `rho_new`
   * the new `r . r`. A zero divisor ends the pass with `BrokeDown`; `eps0`
   * is the 1-norm from the previous pass, which a breakdown before the new
   * one is computed leaves in place.
   */
  method Iterate(a: array2<real>, b: array<real>, x: array<real>, r: array<real>,
                 p: array<real>, tmp: array<real>, ghost m: seq<seq<real>>, eps0: real) returns (step: Step, eps: real)
    requires a.Length0 == a.Length1 == b.Length == x.Length == r.Length == p.Length == tmp.Length == N + 1
    requires x != p && x != r && x != b && x != tmp && r != tmp && r != b && r != p && p != tmp && tmp != b && p != b
    requires m == Rows(a) && IsResidualOf(m, b[..], x[..], r[..])
    modifies x, r, p, tmp
    ensures x[0] == old(x[0])
    ensures IsResidualOf(m, b[..], x[..], r[..])
    ensures Curvature(m, old(p[..])) == 0.0 ==>
      step == BrokeDown && eps == eps0 && x[..] == old(x[..]) && r[..] == old(r[..])
    ensures Curvature(m, old(p[..])) != 0.0 ==>
      && Moved(m, old(x[..]), old(r[..]), old(p[..]), x[..], r[..])
      && eps == Norm1(Residual(m, b[..], x[..]), 1, N)
      && (step == Converged <==> eps < EPS)
      && (eps >= EPS ==> Inner(old(r[..]), old(r[..]), 1, N) != 0.0)
    ensures step == BrokeDown <==> Curvature(m, old(p[..])) == 0.0
    ensures step == Continue ==> Inner(old(r[..]), old(r[..]), 1, N) != 0.0 && Turned(old(r[..]), old(p[..]), r[..], p[..])
    ensures step != Continue ==> p[..] == old(p[..])
    ensures step != BrokeDown ==> eps == Norm1(Residual(m, b[..], x[..]), 1, N)
    ensures step == Converged ==> eps < EPS
    ensures step == Continue ==> eps >= EPS
  {
    ghost var x0, r0, p0 := x[..], r[..], p[..];
    eps := eps0;
    var moved, rho := Descend(a, b, x, r, p, tmp, m);
    if !moved {
      return BrokeDown, eps;
    }
    eps := VectorNorm1(r, 1, N);
    ResidualNorm(m, b[..], x[..], r[..]);
    if eps < EPS {
      return Converged, eps;
    }
    VanishedResidual(m, x0, r0, p0, x[..], r[..]);
    var turned := Redirect(p, r, rho, r0);
    assert turned;
    return Continue, eps;
  }

  /**
   * The first half of a pass: `rho = r . r`, `tmp = A p`, and, unless the
   * curvature `p . A p` is zero, the moves of `x` and `r` by the step length
   * `alpha = rho / (p . A p)`.
   */
  method Descend(a: array2<real>, b: array<real>, x: array<real>, r: array<real>,
                 p: array<real>, tmp: array<real>, ghost m: seq<seq<real>>) returns (moved: bool, rho: real)
    requires a.Length0 == a.Length1 == b.Length == x.Length == r.Length == p.Length == tmp.Length == N + 1
    requires x != p && x != r && x != b && x != tmp && r != tmp && r != b && r != p && p != tmp && tmp != b && p != b
    requires m == Rows(a) && IsResidualOf(m, b[..], x[..], r[..])
    modifies x, r, tmp
    ensures rho == Inner(old(r[..]), old(r[..]), 1, N)
    ensures moved <==> Curvature(m, p[..]) != 0.0
    ensures !moved ==> x[..] == old(x[..]) && r[..] == old(r[..])
    ensures moved ==> Moved(m, old(x[..]), old(r[..]), p[..], x[..], r[..])
    ensures x[0] == old(x[0])
    ensures IsResidualOf(m, b[..], x[..], r[..])
  {
    ghost var x0, r0 := x[..], r[..];
    rho := InnerProduct(1, N, r, r);
    MatrixVectorProduct(a, p, tmp);
    var work := InnerProduct(1, N, p, tmp);
    CurvatureOf(m, p[..], tmp[..], work);
    if work == 0.0 {
      return false, rho;
    }
    var alpha := rho / work;
    Advance(m, b, x, r, p, tmp, alpha);
    MovedBy(m, x0, r0, p[..], tmp[..], alpha, x[..], r[..]);
    moved := true;
  }

  /**
   * The second half of a pass: `rho_new = r . r` and, unless the previous
   * `rho` is zero, `p = r + (rho_new / rho) p`.
   */
  method Redirect(p: array<real>, r: array<real>, rho: real, ghost r0: seq<real>) returns (turned: bool)
    requires p.Length == r.Length == N + 1 && p != r
    requires IsVector(r0) && rho == Inner(r0, r0, 1, N)
    modifies p
    ensures turned <==> rho != 0.0
    ensures !turned ==> p[..] == old(p[..])
    ensures turned ==> Turned(r0, old(p[..]), r[..], p[..])
  {
    var rhoNew := InnerProduct(1, N, r, r);
    if rho == 0.0 {
      return false;
    }
    var beta := rhoNew / rho;
    UpdateDirection(p, r, beta);
    turned := true;
  }

  /** The moves `Advance` makes with `alpha = (r0 . r0) / (p . A p)` and `tmp = A p` are `Moved`. */
  lemma MovedBy(m: seq<seq<real>>, x0: seq<real>, r0: seq<real>, p: seq<real>, tmp: seq<real>, alpha: real,
                x: seq<real>, r: seq<real>)
    requires IsMatrix(m) && IsVector(x0) && IsVector(r0) && IsVector(p) && IsVector(tmp) && IsVector(x) && IsVector(r)
    requires Curvature(m, p) != 0.0 && alpha == Inner(r0, r0, 1, N) / Curvature(m, p)
    requires forall i :: 1 <= i <= N ==> tmp[i] == Apply(m, p)[i]
    requires forall i :: 1 <= i <= N ==> x[i] == x0[i] + alpha * p[i]
    requires forall i :: 1 <= i <= N ==> r[i] == r0[i] - alpha * tmp[i]
    ensures Moved(m, x0, r0, p, x, r)
  {
  }

  /** With `tmp` holding `A p` on `1..N`, `p . tmp` is the curvature of `p`, and `tmp` agrees with `Apply`. */
  lemma CurvatureOf(m: seq<seq<real>>, p: seq<real>, tmp: seq<real>, work: real)
    requires IsMatrix(m) && IsVector(p) && IsVector(tmp)
    requires forall i :: 1 <= i <= N ==> tmp[i] == Inner(m[i], p, 1, N)
    requires work == Inner(p, tmp, 1, N)
    ensures work == Curvature(m, p)
    ensures forall i :: 1 <= i <= N ==> tmp[i] == Apply(m, p)[i]
  {
    InnerFrame(p, tmp, p, Apply(m, p), 1, N);
  }

  /** The vectors `x`, `r` and `p` of `cg` at the start of one pass. */
  datatype PassState = PassState(x: seq<real>, r: seq<real>, p: seq<real>)

  ghost predicate IsState(m: seq<seq<real>>, b: seq<real>, s: PassState)
    requires IsMatrix(m) && IsVector(b)
  {
    IsVector(s.x) && IsVector(s.r) && IsVector(s.p) && IsResidualOf(m, b, s.x, s.r)
  }

  /**
   * A pass from `s` that went on to the next one, ending in `t`: the
   * curvature and `rho` were nonzero, `x` and `r` moved (`Moved`), the new
   * residual's 1-norm was not below `EPS`, and the direction turned (`Turned`).
   */
  ghost predicate Continued(m: seq<seq<real>>, b: seq<real>, s: PassState, t: PassState)
    requires IsMatrix(m) && IsVector(b)
  {
    && IsState(m, b, s) && IsState(m, b, t)
    && Curvature(m, s.p) != 0.0
    && Moved(m, s.x, s.r, s.p, t.x, t.r)
    && Norm1(t.r, 1, N) >= EPS
    && Inner(s.r, s.r, 1, N) != 0.0
    && Turned(s.r, s.p, t.r, t.p)
  }

  /**
   * `trace[j]` is the state at the start of pass `j + 1` of `cg` from `x0`:
   * the first has `r = p = b - A x0`, and each later one is reached from
   * the one before by a pass that `Continued`.
   */
  ghost predicate Trace(m: seq<seq<real>>, b: seq<real>, x0: seq<real>, trace: seq<PassState>)
    requires IsMatrix(m) && IsVector(b)
  {
    && |trace| >= 1
    && (forall j :: 0 <= j < |trace| ==> IsState(m, b, trace[j]))
    && trace[0].x == x0
    && (forall i :: 1 <= i <= N ==> trace[0].p[i] == trace[0].r[i])
    && forall j :: 0 <= j < |trace| - 1 ==> Continued(m, b, trace[j], trace[j + 1])
  }

  /** A trace extended by a pass that `Continued` from its last state is a trace. */
  lemma TraceExtend(m: seq<seq<real>>, b: seq<real>, x0: seq<real>, trace: seq<PassState>, t: PassState)
    requires IsMatrix(m) && IsVector(b) && Trace(m, b, x0, trace)
    requires Continued(m, b, trace[|trace| - 1], t)
    ensures Trace(m, b, x0, trace + [t])
  {
    var trace' := trace + [t];
    forall j | 0 <= j < |trace'| - 1
      ensures Continued(m, b, trace'[j], trace'[j + 1])
    {
      assert trace'[j] == trace[j];
      if j < |trace| - 1 {
        assert trace'[j + 1] == trace[j + 1];
      }
    }
  }

  /**
   * `cg`: the do-while loop of the conjugate-gradient method. `x` is updated
   * in place; `k` is the final iteration counter and `eps` the last 1-norm of
   * the residual that was computed. `trace` holds the state at the start of
   * each of the `k` passes; every pass but the last `Continued`. The last one
   * broke down on a zero curvature with `x` unchanged, or moved `x` (and the
   * residual to `rk`) and then stopped, converged or at the `KMAX`-th pass.
   */
  method Cg(a: array2<real>, b: array<real>, x: array<real>)
    returns (outcome: Outcome, k: nat, eps: real, ghost trace: seq<PassState>, ghost rk: seq<real>)
    requires a.Length0 == a.Length1 == b.Length == x.Length == N + 1
    requires x != b
    modifies x
    ensures 1 <= k <= KMAX
    ensures |trace| == k && Trace(Rows(a), b[..], old(x[..]), trace)
    ensures outcome == Breakdown ==>
      && Curvature(Rows(a), trace[k - 1].p) == 0.0
      && x[..] == trace[k - 1].x
      && (k > 1 ==> eps == Norm1(trace[k - 1].r, 1, N))
    ensures outcome != Breakdown ==>
      && Curvature(Rows(a), trace[k - 1].p) != 0.0
      && IsVector(rk) && IsResidualOf(Rows(a), b[..], x[..], rk)
      && Moved(Rows(a), trace[k - 1].x, trace[k - 1].r, trace[k - 1].p, x[..], rk)
      && eps == Norm1(rk, 1, N)
    ensures outcome != Breakdown ==> eps == Norm1(Residual(Rows(a), b[..], x[..]), 1, N)
    ensures outcome != Breakdown ==> (outcome == Solved <==> k < KMAX)
    ensures outcome == Solved ==> eps < EPS
    ensures outcome == NotFound ==> k == KMAX
    ensures x[0] == old(x[0])
  {
    ghost var m := Rows(a);
    var r := new real[N + 1];
    var p := new real[N + 1];
    var tmp := new real[N + 1];
    InitResidual(a, b, x, tmp, p, r);
    k := 0;
    eps := 0.0;
    trace := [PassState(x[..], r[..], p[..])];
    while true
      invariant 0 <= k < KMAX
      invariant x[0] == old(x[0])
      invariant IsResidualOf(m, b[..], x[..], r[..])
      invariant |trace| == k + 1 && trace[k] == PassState(x[..], r[..], p[..])
      invariant Trace(m, b[..], old(x[..]), trace)
      invariant k > 0 ==> eps == Norm1(r[..], 1, N)
      decreases KMAX - k
    {
      k := k + 1;
      var step;
      step, eps := Iterate(a, b, x, r, p, tmp, m, eps);
      if step == BrokeDown {
        return Breakdown, k, eps, trace, r[..];
      }
      rk := r[..];
      ResidualNorm(m, b[..], x[..], r[..]);
      if step == Converged {
        break;
      }
      if k == KMAX {
        break;
      }
      TraceExtend(m, b[..], old(x[..]), trace, PassState(x[..], r[..], p[..]));
      trace := trace + [PassState(x[..], r[..], p[..])];
    }
    if k == KMAX {
      outcome := NotFound;
    } else {
      outcome := Solved;
    }
  }
}
