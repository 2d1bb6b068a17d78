/**
 * The packed symmetric solver of 3_kadai/3_submit.c.
 *
 * Only the upper triangle of the symmetric `n x n` matrix is stored, row by
 * row, in a flat array of `n * (n + 1) / 2` entries; entry `(i, j)`, with
 * 1-based `i` and `j`, lives at `UpperIndex(i, j, n)`, and `(j, i)` shares
 * that place. The right-hand side `b` is 1-based: index 0 of its array is
 * allocated and never used.
 */
module PackedSymmetric {
  import opened Vectors
  import opened Text

  /** The pivot threshold 2^-50. */
  const EPS: real := 1.0 / 1125899906842624.0

  /**
   * Where row `i` of the upper triangle starts: rows `1..i - 1` hold
   * `n, n - 1, ..., n - i + 2` entries.
   */
  function PackedRowStart(i: int, n: int): int
    requires i >= 1
  {
    if i == 1 then 0 else PackedRowStart(i - 1, n) + (n - i + 2)
  }

  /** The number of stored entries: the start of the row after the last. */
  function PackedSize(n: nat): int
  {
    PackedRowStart(n + 1, n)
  }

  /** The cursor `PackedRowStart` agrees with the closed form the index computation uses. */
  lemma {:induction false} PackedRowStartClosed(i: int, n: int)
    requires i >= 1
    ensures PackedRowStart(i, n) == (i - 1) * n - (i - 1) * (i - 2) / 2
  {
    if i > 1 {
      PackedRowStartClosed(i - 1, n);
      assert (i - 1) * n == (i - 2) * n + n;
      assert (i - 1) * (i - 2) == (i - 2) * (i - 3) + 2 * (i - 2);
    }
  }

  lemma {:induction false} ConsecutiveProductEven(n: nat)
    ensures (n * (n - 1)) % 2 == 0
  {
    if n > 0 {
      ConsecutiveProductEven(n - 1);
      assert n * (n - 1) == (n - 1) * (n - 2) + 2 * (n - 1);
    }
  }

  /** The rows `1..n` fill exactly the `n * (n + 1) / 2` entries the allocation asks for. */
  lemma PackedSizeClosed(n: nat)
    ensures PackedSize(n) == n * (n + 1) / 2
  {
    PackedRowStartClosed(n + 1, n);
    ConsecutiveProductEven(n);
    var x := n * (n - 1);
    assert n * n == x + n;
    assert n * (n + 1) == x + 2 * n;
    assert (x + 2 * n) / 2 == x / 2 + n;
    assert x - x / 2 == x / 2;
  }

  /** Later rows start after earlier rows end. */
  lemma {:induction false} PackedRowStartMono(i: int, i': int, n: int)
    requires 1 <= i < i' <= n + 1
    ensures PackedRowStart(i, n) + (n - i + 1) <= PackedRowStart(i', n)
  {
    if i' > i + 1 {
      PackedRowStartMono(i, i' - 1, n);
    }
  }

  lemma {:induction false} PackedRowStartNonNegative(i: int, n: int)
    requires 1 <= i <= n + 1
    ensures PackedRowStart(i, n) >= 0
  {
    if i > 1 {
      PackedRowStartNonNegative(i - 1, n);
    }
  }

  /**
   * Where entry `(i, j)` lives when the rows of the upper triangle are laid
   * out one after the other, each starting at its diagonal, and `(j, i)`
   * shares the place of `(i, j)`.
   */
  function Place(i: int, j: int, n: int): (idx: int)
    requires 1 <= i <= n && 1 <= j <= n
    ensures 0 <= idx < PackedSize(n)
  {
    var lo := if i <= j then i else j;
    PackedRowStartNonNegative(lo, n);
    PackedRowStartMono(lo, n + 1, n);
    if i <= j then PackedRowStart(i, n) + (j - i) else PackedRowStart(j, n) + (i - j)
  }

  /**
   * `get_upper_index`: the place of entry `(i, j)`, written with the closed
   * form of the source and the same swap for `i > j`. It is the offset of the
   * larger coordinate within the row of the smaller one, and it lies inside
   * the allocation.
   */
  function UpperIndex(i: int, j: int, n: int): (idx: int)
    requires 1 <= i <= n && 1 <= j <= n
    ensures i <= j ==> idx == PackedRowStart(i, n) + (j - i)
    ensures j < i ==> idx == PackedRowStart(j, n) + (i - j)
    ensures 0 <= idx < PackedSize(n) && idx == Place(i, j, n)
  {
    var lo := if i <= j then i else j;
    var hi := if i <= j then j else i;
    PackedRowStartClosed(lo, n);
    PackedRowStartNonNegative(lo, n);
    PackedRowStartMono(lo, n + 1, n);
    if i <= j then
      (i - 1) * n - (i - 1) * (i - 2) / 2 + (j - i)
    else
      (j - 1) * n - (j - 1) * (j - 2) / 2 + (i - j)
  }

  /** The entry that offset `idx` of row `i` onwards holds: rows are scanned from `i`. */
  function UnpackFrom(idx: int, i: int, n: int): (pq: (int, int))
    requires 1 <= i <= n && 0 <= idx < PackedRowStart(n + 1, n) - PackedRowStart(i, n)
    ensures i <= pq.0 <= pq.1 <= n
    decreases n - i
  {
    if idx < n - i + 1 then (i, i + idx)
    else
      PackedRowStartMono(i, i + 1, n);
      UnpackFrom(idx - (n - i + 1), i + 1, n)
  }

  /** The entry `(p, q)`, `p <= q`, stored at place `idx`. */
  function Unpack(idx: int, n: nat): (pq: (int, int))
    requires 0 <= idx < PackedSize(n)
    ensures 1 <= pq.0 <= pq.1 <= n
  {
    UnpackFrom(idx, 1, n)
  }

  lemma {:induction false} UnpackFromPack(i: int, p: int, q: int, n: int)
    requires 1 <= i <= p <= q <= n
    ensures 0 <= PackedRowStart(p, n) + (q - p) - PackedRowStart(i, n) < PackedRowStart(n + 1, n) - PackedRowStart(i, n)
    ensures UnpackFrom(PackedRowStart(p, n) + (q - p) - PackedRowStart(i, n), i, n) == (p, q)
    decreases p - i
  {
    PackedRowStartMono(p, n + 1, n);
    if i < p {
      PackedRowStartMono(i, p, n);
      UnpackFromPack(i + 1, p, q, n);
    }
  }

  /** Unpacking the place of `(i, j)` gives the entry back, in upper-triangle order. */
  lemma UnpackUpperIndex(i: int, j: int, n: int)
    requires 1 <= i <= n && 1 <= j <= n
    ensures Unpack(UpperIndex(i, j, n), n) == (if i <= j then (i, j) else (j, i))
  {
    if i <= j {
      UnpackFromPack(1, i, j, n);
    } else {
      UnpackFromPack(1, j, i, n);
    }
  }

  lemma {:induction false} PackUnpackFrom(idx: int, i: int, n: int)
    requires 1 <= i <= n && 0 <= idx < PackedRowStart(n + 1, n) - PackedRowStart(i, n)
    ensures var pq := UnpackFrom(idx, i, n); UpperIndex(pq.0, pq.1, n) == PackedRowStart(i, n) + idx
    decreases n - i
  {
    if idx >= n - i + 1 {
      PackedRowStartMono(i, i + 1, n);
      PackUnpackFrom(idx - (n - i + 1), i + 1, n);
    }
  }

  /** Every place of the allocation holds some upper-triangle entry. */
  lemma UpperIndexUnpack(idx: int, n: nat)
    requires 0 <= idx < PackedSize(n)
    ensures UpperIndex(Unpack(idx, n).0, Unpack(idx, n).1, n) == idx
  {
    PackUnpackFrom(idx, 1, n);
  }

  /** `(i, j)` and `(j, i)` share a place, and distinct upper-triangle entries have distinct places. */
  lemma UpperIndexSymmetricInjective(i: int, j: int, i': int, j': int, n: int)
    requires 1 <= i <= n && 1 <= j <= n && 1 <= i' <= j' <= n
    ensures UpperIndex(i, j, n) == UpperIndex(j, i, n)
    ensures i <= j && UpperIndex(i, j, n) == UpperIndex(i', j', n) ==> i == i' && j == j'
  {
    UnpackUpperIndex(i, j, n);
    UnpackUpperIndex(j, i, n);
    UnpackUpperIndex(i', j', n);
  }

  /**
   * `input_symmetric_matrix`: the entries `(i, j)`, `i <= j`, row by row,
   * each from the next number of the matrix file; a missing number is a
   * reading error. The places written are `0, 1, 2, ...` in turn, so place
   * `t` receives number `t`.
   */
  method InputSymmetricMatrix(a: array<real>, n: nat, tokens: seq<Token>) returns (ok: bool)
    requires a.Length == PackedSize(n)
    modifies a
    ensures ok <==> NumbersFirst(tokens, PackedSize(n))
    ensures ok ==> a[..] == Values(tokens, PackedSize(n))
  {
    var t := 0;
    for i := 1 to n + 1
      invariant t == PackedRowStart(i, n) <= a.Length
      invariant NumbersFirst(tokens, t)
      invariant forall k :: 0 <= k < t ==> a[k] == tokens[k].value
    {
      PackedRowStartMono(i, n + 1, n);
      PackedRowStartNonNegative(i, n);
      for j := i to n + 1
        invariant t == PackedRowStart(i, n) + (j - i) <= a.Length
        invariant NumbersFirst(tokens, t)
        invariant forall k :: 0 <= k < t ==> a[k] == tokens[k].value
      {
        if t >= |tokens| || !tokens[t].Number? {
          return false;
        }
        var index := UpperIndex(i, j, n);
        a[index] := tokens[t].value;
        t := t + 1;
      }
    }
    ok := true;
  }

  /** `input_vector`: `b[1..n]` from the first `n` numbers of the vector file. */
  method InputVector(b: array<real>, n: nat, tokens: seq<Token>) returns (ok: bool)
    requires b.Length == n + 1
    modifies b
    ensures ok <==> NumbersFirst(tokens, n)
    ensures ok ==> b[1..] == Values(tokens, n)
    ensures b[0] == old(b[0])
  {
    for i := 1 to n + 1
      invariant NumbersFirst(tokens, i - 1)
      invariant forall k :: 1 <= k < i ==> b[k] == tokens[k - 1].value
      invariant b[0] == old(b[0])
    {
      if i - 1 >= |tokens| || !tokens[i - 1].Number? {
        return false;
      }
      b[i] := tokens[i - 1].value;
    }
    ok := true;
  }

  /** `Unpack` recovers the entry of a place of the row-by-row layout, with the smaller coordinate first. */
  lemma UnpackPlace(i: int, j: int, n: int)
    requires 1 <= i <= n && 1 <= j <= n
    ensures Unpack(Place(i, j, n), n) == (if i <= j then (i, j) else (j, i))
  {
    UnpackUpperIndex(i, j, n);
  }

  /** The place `get_upper_index` computes, for the loops that index through it. */
  method PlaceOf(i: int, j: int, n: nat) returns (idx: int)
    requires 1 <= i <= n && 1 <= j <= n
    ensures idx == Place(i, j, n)
  {
    idx := UpperIndex(i, j, n);
  }

  /** Entry `(i, j)` of the symmetric matrix stored in `a`. */
  ghost function Cell(a: seq<real>, n: nat, i: int, j: int): real
    requires |a| == PackedSize(n) && 1 <= i <= n && 1 <= j <= n
  {
    a[Place(i, j, n)]
  }

  /** The multiplier of row `i` in step `k`: entry `(i, k)` over the pivot `(k, k)`. */
  ghost function Alpha(a: seq<real>, n: nat, k: int, i: int): real
    requires |a| == PackedSize(n) && 1 <= k <= n && 1 <= i <= n && Cell(a, n, k, k) != 0.0
  {
    Cell(a, n, i, k) / Cell(a, n, k, k)
  }

  /**
   * The amount step `k` subtracts at the place of `(i, j)` when the loops
   * reach `(i, j)`: the multiplier of row `i` times entry `(k, j)`.
   */
  ghost function Decrement(a: seq<real>, n: nat, k: int, i: int, j: int): real
    requires |a| == PackedSize(n) && 1 <= k <= n && 1 <= i <= n && 1 <= j <= n && Cell(a, n, k, k) != 0.0
  {
    Alpha(a, n, k, i) * Cell(a, n, k, j)
  }

  /**
   * Entry `(p, q)`, `p <= q`, after step `k`. The loops of step `k` run over
   * all `(i, j)` with `i, j > k`, and `(i, j)` and `(j, i)` share a place, so
   * an entry off the diagonal is decremented twice and one on it once.
   */
  ghost function StepEntry(a: seq<real>, n: nat, k: int, p: int, q: int): real
    requires |a| == PackedSize(n) && 1 <= k <= n && 1 <= p <= q <= n && Cell(a, n, k, k) != 0.0
  {
    if p <= k then Cell(a, n, p, q)
    else Cell(a, n, p, q) - Decrement(a, n, k, p, q) - (if p < q then Decrement(a, n, k, q, p) else 0.0)
  }

  /** The packed matrix after elimination step `k`. */
  ghost function StepA(a: seq<real>, n: nat, k: int): (a': seq<real>)
    requires |a| == PackedSize(n) && 1 <= k <= n && Cell(a, n, k, k) != 0.0
    ensures |a'| == |a|
  {
    seq(|a|, idx requires 0 <= idx < |a| => StepEntry(a, n, k, Unpack(idx, n).0, Unpack(idx, n).1))
  }

  /** The right-hand side after elimination step `k`. */
  ghost function StepB(b: seq<real>, a: seq<real>, n: nat, k: int): (b': seq<real>)
    requires |a| == PackedSize(n) && |b| == n + 1 && 1 <= k <= n && Cell(a, n, k, k) != 0.0
    ensures |b'| == |b|
  {
    seq(|b|, i requires 0 <= i < |b| => if k < i then b[i] - Alpha(a, n, k, i) * b[k] else b[i])
  }

  /** The state of forward elimination: the arrays after some steps, or the step that aborted. */
  datatype Elimination = Reduced(a: seq<real>, b: seq<real>) | Stopped(step: int)

  /**
   * Forward elimination through step `k`: each step first checks its pivot
   * against `EPS` and stops there when it is smaller in magnitude.
   */
  ghost function Eliminate(a0: seq<real>, b0: seq<real>, n: nat, k: nat): (e: Elimination)
    requires |a0| == PackedSize(n) && |b0| == n + 1 && k <= n
    ensures e.Reduced? ==> |e.a| == |a0| && |e.b| == |b0|
    ensures e.Stopped? ==> 1 <= e.step <= k
  {
    if k == 0 then Reduced(a0, b0)
    else
      match Eliminate(a0, b0, n, k - 1)
      case Stopped(s) => Stopped(s)
      case Reduced(a, b) =>
        if Abs(Cell(a, n, k, k)) < EPS then Stopped(k)
        else Reduced(StepA(a, n, k), StepB(b, a, n, k))
  }

  /** Whether the loops of step `k` have passed `(i', j')` when they stand at `(i, j)`. */
  predicate Passed(k: int, i': int, j': int, i: int, j: int)
  {
    k < i' && k < j' && (i' < i || (i' == i && j' < j))
  }

  /** Place `idx` of the packed matrix while step `k` stands at `(i, j)`. */
  ghost function PartialEntry(a0: seq<real>, n: nat, k: int, idx: int, i: int, j: int): real
    requires |a0| == PackedSize(n) && 1 <= k <= n && 0 <= idx < |a0| && Cell(a0, n, k, k) != 0.0
  {
    var p, q := Unpack(idx, n).0, Unpack(idx, n).1;
    a0[idx] - (if Passed(k, p, q, i, j) then Decrement(a0, n, k, p, q) else 0.0)
      - (if p < q && Passed(k, q, p, i, j) then Decrement(a0, n, k, q, p) else 0.0)
  }

  /** Every place of `a` holds its value for step `k` standing at `(i, j)`. */
  ghost predicate PartlyEliminated(a: seq<real>, a0: seq<real>, n: nat, k: int, i: int, j: int)
    requires |a0| == PackedSize(n) && 1 <= k <= n && Cell(a0, n, k, k) != 0.0
  {
    |a| == |a0| && forall idx :: 0 <= idx < |a| ==> a[idx] == PartialEntry(a0, n, k, idx, i, j)
  }

  /** Entries of row `k` and above are not decremented by step `k`, whatever the loops have passed. */
  lemma RowKUntouched(a0: seq<real>, n: nat, k: int, r: int, c: int, i: int, j: int)
    requires |a0| == PackedSize(n) && 1 <= k <= n && Cell(a0, n, k, k) != 0.0
    requires 1 <= r <= k && r <= c <= n
    ensures PartialEntry(a0, n, k, Place(r, c, n), i, j) == Cell(a0, n, r, c)
  {
    UnpackPlace(r, c, n);
  }

  /** Passing `(i, j)` changes the value of its place only, by its decrement. */
  lemma PassOne(a0: seq<real>, n: nat, k: int, i: int, j: int, idx: int)
    requires |a0| == PackedSize(n) && 1 <= k < i <= n && k < j <= n && Cell(a0, n, k, k) != 0.0
    requires 0 <= idx < |a0|
    ensures PartialEntry(a0, n, k, idx, i, j + 1) ==
      PartialEntry(a0, n, k, idx, i, j) - (if idx == Place(i, j, n) then Decrement(a0, n, k, i, j) else 0.0)
  {
    UnpackPlace(i, j, n);
    UpperIndexUnpack(idx, n);
  }

  /** While step `k` runs, row `k` still holds its entries from before the step. */
  lemma ReadRowK(a: seq<real>, a0: seq<real>, n: nat, k: int, i: int, j: int, c: int)
    requires |a0| == PackedSize(n) && 1 <= k <= n && k <= c <= n && Cell(a0, n, k, k) != 0.0
    requires PartlyEliminated(a, a0, n, k, i, j)
    ensures a[Place(k, c, n)] == Cell(a0, n, k, c)
  {
    RowKUntouched(a0, n, k, k, c, i, j);
  }

  /** At the start of row `i`, the multiplier read from the array is `Alpha` of the step's input. */
  lemma MultiplierFromRowK(a: seq<real>, a0: seq<real>, n: nat, k: int, i: int)
    requires |a0| == PackedSize(n) && 1 <= k < i <= n && Cell(a0, n, k, k) != 0.0
    requires PartlyEliminated(a, a0, n, k, i, k + 1)
    ensures a[Place(k, k, n)] != 0.0
    ensures a[Place(i, k, n)] / a[Place(k, k, n)] == Alpha(a0, n, k, i)
  {
    ReadRowK(a, a0, n, k, i, k + 1, i);
    ReadRowK(a, a0, n, k, i, k + 1, k);
  }

  /** One pass of the innermost loop body keeps the invariant `PartlyEliminated`. */
  lemma PassPlace(before: seq<real>, after: seq<real>, v: real, a0: seq<real>, n: nat, k: int, i: int, j: int)
    requires |a0| == PackedSize(n) && 1 <= k < i <= n && k < j <= n && Cell(a0, n, k, k) != 0.0
    requires PartlyEliminated(before, a0, n, k, i, j)
    requires after == before[Place(i, j, n) := v]
    requires v == before[Place(i, j, n)] - Decrement(a0, n, k, i, j)
    ensures PartlyEliminated(after, a0, n, k, i, j + 1)
  {
    var place := Place(i, j, n);
    var dec := Decrement(a0, n, k, i, j);
    forall idx | 0 <= idx < |after|
      ensures after[idx] == PartialEntry(a0, n, k, idx, i, j + 1)
    {
      PassOne(a0, n, k, i, j, idx);
      assert before[idx] == PartialEntry(a0, n, k, idx, i, j);
      if idx == place {
        assert after[idx] == before[idx] - dec;
      } else {
        assert after[idx] == before[idx];
      }
    }
  }

  /**
   * The `j` loop of step `k` for row `i`: entry `(i, j)` loses `alpha` times
   * entry `(k, j)`, for `j = k + 1..n`.
   */
  method EliminateRow(a: array<real>, n: nat, k: int, i: int, alpha: real, ghost a0: seq<real>)
    requires a.Length == |a0| == PackedSize(n) && 1 <= k < i <= n && Cell(a0, n, k, k) != 0.0
    requires alpha == Alpha(a0, n, k, i)
    requires PartlyEliminated(a[..], a0, n, k, i, k + 1)
    modifies a
    ensures PartlyEliminated(a[..], a0, n, k, i, n + 1)
  {
    for j := k + 1 to n + 1
      invariant PartlyEliminated(a[..], a0, n, k, i, j)
    {
      var idxIJ := PlaceOf(i, j, n);
      var idxKJ := PlaceOf(k, j, n);
      ReadRowK(a[..], a0, n, k, i, j, j);
      ghost var before := a[..];
      var v := a[idxIJ] - alpha * a[idxKJ];
      assert v == before[idxIJ] - Decrement(a0, n, k, i, j);
      a[idxIJ] := v;
      PassPlace(before, a[..], v, a0, n, k, i, j);
    }
  }

  lemma PartialStart(a0: seq<real>, n: nat, k: int)
    requires |a0| == PackedSize(n) && 1 <= k <= n && Cell(a0, n, k, k) != 0.0
    ensures PartlyEliminated(a0, a0, n, k, k + 1, k + 1)
  {
  }

  /** Finishing the `j` loop of row `i` is starting row `i + 1`. */
  lemma RowDone(a: seq<real>, a0: seq<real>, n: nat, k: int, i: int)
    requires |a0| == PackedSize(n) && 1 <= k < i <= n && Cell(a0, n, k, k) != 0.0
    requires PartlyEliminated(a, a0, n, k, i, n + 1)
    ensures PartlyEliminated(a, a0, n, k, i + 1, k + 1)
  {
    forall idx | 0 <= idx < |a|
      ensures a[idx] == PartialEntry(a0, n, k, idx, i + 1, k + 1)
    {
      assert a[idx] == PartialEntry(a0, n, k, idx, i, n + 1);
    }
  }

  /** When the `i` loop is done every place holds its value after the step. */
  lemma StepComplete(a: seq<real>, a0: seq<real>, n: nat, k: int)
    requires |a0| == PackedSize(n) && 1 <= k <= n && Cell(a0, n, k, k) != 0.0
    requires PartlyEliminated(a, a0, n, k, n + 1, k + 1)
    ensures a == StepA(a0, n, k)
  {
    forall idx | 0 <= idx < |a|
      ensures a[idx] == StepA(a0, n, k)[idx]
    {
      assert a[idx] == PartialEntry(a0, n, k, idx, n + 1, k + 1);
      UpperIndexUnpack(idx, n);
    }
  }

  /** The right-hand side while step `k` stands at row `i`: the rows before `i` are updated. */
  ghost predicate RhsPartly(b: seq<real>, b0: seq<real>, a0: seq<real>, n: nat, k: int, i: int)
    requires |a0| == PackedSize(n) && |b0| == n + 1 && 1 <= k <= n && Cell(a0, n, k, k) != 0.0
  {
    |b| == n + 1 && forall i' :: 0 <= i' <= n ==>
      b[i'] == if k < i' < i then b0[i'] - Alpha(a0, n, k, i') * b0[k] else b0[i']
  }

  lemma RhsStep(b: seq<real>, b': seq<real>, v: real, b0: seq<real>, a0: seq<real>, n: nat, k: int, i: int, alpha: real)
    requires |a0| == PackedSize(n) && |b0| == n + 1 && 1 <= k < i <= n && Cell(a0, n, k, k) != 0.0
    requires RhsPartly(b, b0, a0, n, k, i) && alpha == Alpha(a0, n, k, i)
    requires b' == b[i := v] && v == b[i] - alpha * b[k]
    ensures RhsPartly(b', b0, a0, n, k, i + 1)
  {
  }

  lemma StepBComplete(b: seq<real>, b0: seq<real>, a0: seq<real>, n: nat, k: int)
    requires |a0| == PackedSize(n) && |b0| == n + 1 && 1 <= k <= n && Cell(a0, n, k, k) != 0.0
    requires RhsPartly(b, b0, a0, n, k, n + 1)
    ensures b == StepB(b0, a0, n, k)
  {
    var b' := StepB(b0, a0, n, k);
    forall i' | 0 <= i' <= n
      ensures b[i'] == b'[i']
    {
      if k < i' {
        assert b[i'] == b0[i'] - Alpha(a0, n, k, i') * b0[k];
      } else {
        assert b[i'] == b0[i'];
      }
    }
  }

  /**
   * Step `k` of the forward elimination of `gauss_symmetric`, once its pivot
   * has been checked: for `i = k + 1..n` the multiplier of row `i`, the `j`
   * loop over the packed matrix, and the update of `b[i]`.
   */
  method EliminateStep(a: array<real>, b: array<real>, n: nat, k: int)
    requires a.Length == PackedSize(n) && b.Length == n + 1 && 1 <= k < n && a != b
    requires Cell(a[..], n, k, k) != 0.0
    modifies a, b
    ensures a[..] == StepA(old(a[..]), n, k)
    ensures b[..] == StepB(old(b[..]), old(a[..]), n, k)
  {
    ghost var a0, b0 := a[..], b[..];
    PartialStart(a0, n, k);
    for i := k + 1 to n + 1
      invariant PartlyEliminated(a[..], a0, n, k, i, k + 1)
      invariant RhsPartly(b[..], b0, a0, n, k, i)
    {
      EliminateBelow(a, b, n, k, i, a0, b0);
    }
    StepComplete(a[..], a0, n, k);
    StepBComplete(b[..], b0, a0, n, k);
  }

  /** The body of the `i` loop of step `k`: row `i` of the packed matrix and `b[i]`. */
  method EliminateBelow(a: array<real>, b: array<real>, n: nat, k: int, i: int, ghost a0: seq<real>, ghost b0: seq<real>)
    requires a.Length == |a0| == PackedSize(n) && |b0| == n + 1 && 1 <= k < i <= n && a != b
    requires Cell(a0, n, k, k) != 0.0
    requires PartlyEliminated(a[..], a0, n, k, i, k + 1) && RhsPartly(b[..], b0, a0, n, k, i)
    modifies a, b
    ensures PartlyEliminated(a[..], a0, n, k, i + 1, k + 1) && RhsPartly(b[..], b0, a0, n, k, i + 1)
  {
    var idxIK := PlaceOf(i, k, n);
    var idxKK := PlaceOf(k, k, n);
    MultiplierFromRowK(a[..], a0, n, k, i);
    var alpha := a[idxIK] / a[idxKK];
    EliminateRow(a, n, k, i, alpha, a0);
    RowDone(a[..], a0, n, k, i);
    ghost var bBefore := b[..];
    var v := b[i] - alpha * b[k];
    b[i] := v;
    assert b[..] == bBefore[i := v];
    RhsStep(bBefore, b[..], v, b0, a0, n, k, i, alpha);
  }

  /** A pivot below `EPS` after `k - 1` steps stops the elimination at step `k`. */
  lemma StopsHere(a0: seq<real>, b0: seq<real>, n: nat, k: nat, a: seq<real>, b: seq<real>)
    requires |a0| == PackedSize(n) && |b0| == n + 1 && 1 <= k <= n
    requires Eliminate(a0, b0, n, k - 1) == Reduced(a, b) && Abs(Cell(a, n, k, k)) < EPS
    ensures Eliminate(a0, b0, n, k) == Stopped(k)
  {
  }

  /** An elimination stopped after `k` steps stays stopped, at the same step, through every later step. */
  lemma {:induction false} StopsAt(a0: seq<real>, b0: seq<real>, n: nat, s: int, k: nat, k2: nat)
    requires |a0| == PackedSize(n) && |b0| == n + 1 && k <= k2 <= n
    requires Eliminate(a0, b0, n, k) == Stopped(s)
    ensures Eliminate(a0, b0, n, k2) == Stopped(s)
    decreases k2
  {
    if k < k2 {
      StopsAt(a0, b0, n, s, k, k2 - 1);
    }
  }

  /**
   * What forward elimination from `a0`, `b0` leaves: on an abort at `step`
   * the arrays the steps before it produced, whose pivots before `step`
   * passed and whose pivot `step` did not; otherwise the arrays after steps
   * `1..n - 1`, all of whose pivots passed.
   */
  ghost predicate ForwardOutcome(a0: seq<real>, b0: seq<real>, n: nat, singular: bool, step: int, a: seq<real>, b: seq<real>)
    requires |a0| == |a| == PackedSize(n) && |b0| == |b| == n + 1 && n >= 1
  {
    if singular then
      1 <= step < n && Eliminate(a0, b0, n, n - 1) == Stopped(step)
      && Eliminate(a0, b0, n, step - 1) == Reduced(a, b)
      && PivotsBefore(a, n, step) && Abs(Cell(a, n, step, step)) < EPS
    else
      Eliminate(a0, b0, n, n - 1) == Reduced(a, b) && PivotsBefore(a, n, n)
  }

  /** An abort at step `k` is the outcome `ForwardOutcome` describes. */
  lemma Aborts(a0: seq<real>, b0: seq<real>, n: nat, k: nat, a: seq<real>, b: seq<real>)
    requires |a0| == |a| == PackedSize(n) && |b0| == |b| == n + 1 && 1 <= k < n
    requires Eliminate(a0, b0, n, k - 1) == Reduced(a, b) && PivotsBefore(a, n, k) && Abs(Cell(a, n, k, k)) < EPS
    ensures ForwardOutcome(a0, b0, n, true, k, a, b)
  {
    StopsHere(a0, b0, n, k, a, b);
    StopsAt(a0, b0, n, k, k, n - 1);
  }

  /**
   * The forward elimination of `gauss_symmetric`: steps `k = 1..n - 1`, each
   * aborting (the source exits) when `|a(k, k)| < EPS`.
   */
  method Forward(a: array<real>, b: array<real>, n: nat) returns (singular: bool, step: int)
    requires a.Length == PackedSize(n) && b.Length == n + 1 && n >= 1 && a != b
    modifies a, b
    ensures ForwardOutcome(old(a[..]), old(b[..]), n, singular, step, a[..], b[..])
  {
    ghost var a0, b0 := a[..], b[..];
    for k := 1 to n
      invariant Eliminate(a0, b0, n, k - 1) == Reduced(a[..], b[..])
      invariant PivotsBefore(a[..], n, k)
    {
      var small := PivotTooSmall(a, n, k);
      if small {
        Aborts(a0, b0, n, k, a[..], b[..]);
        return true, k;
      }
      ForwardStep(a, b, n, k, a0, b0);
    }
    return false, 0;
  }

  /** The regularity check of step `k`: `|a(k, k)| < EPS`. */
  method PivotTooSmall(a: array<real>, n: nat, k: int) returns (small: bool)
    requires a.Length == PackedSize(n) && 1 <= k <= n
    ensures small <==> Abs(Cell(a[..], n, k, k)) < EPS
  {
    var pivot := ReadCell(a, n, k, k);
    small := Abs(pivot) < EPS;
  }

  /** One checked step of `Forward`: the arrays move from `Eliminate(k - 1)` to `Eliminate(k)`. */
  method ForwardStep(a: array<real>, b: array<real>, n: nat, k: int, ghost a0: seq<real>, ghost b0: seq<real>)
    requires a.Length == |a0| == PackedSize(n) && b.Length == |b0| == n + 1 && 1 <= k < n && a != b
    requires Eliminate(a0, b0, n, k - 1) == Reduced(a[..], b[..])
    requires PivotsBefore(a[..], n, k) && Abs(Cell(a[..], n, k, k)) >= EPS
    modifies a, b
    ensures Eliminate(a0, b0, n, k) == Reduced(a[..], b[..])
    ensures PivotsBefore(a[..], n, k + 1)
  {
    StepKeepsPivots(a[..], b[..], n, k);
    EliminateStep(a, b, n, k);
  }

  /** Step `k` leaves the entries of rows `1..k` and `b[0..k]` as they were. */
  lemma StepKeepsRows(a: seq<real>, b: seq<real>, n: nat, k: int, p: int, q: int)
    requires |a| == PackedSize(n) && |b| == n + 1 && 1 <= k <= n && Cell(a, n, k, k) != 0.0
    requires 1 <= p <= k && p <= q <= n
    ensures Cell(StepA(a, n, k), n, p, q) == Cell(a, n, p, q)
    ensures StepB(b, a, n, k)[p] == b[p] && StepB(b, a, n, k)[0] == b[0]
  {
    UnpackPlace(p, q, n);
  }

  /** The pivots `(1, 1)` .. `(k - 1, k - 1)` all have size at least `EPS`. */
  ghost predicate PivotsBefore(a: seq<real>, n: nat, k: int)
    requires |a| == PackedSize(n) && k <= n + 1
  {
    forall k' :: 1 <= k' < k ==> Abs(Cell(a, n, k', k')) >= EPS
  }

  /** Step `k` does not touch the pivots already used, so the ones that passed stay passed. */
  lemma StepKeepsPivots(a: seq<real>, b: seq<real>, n: nat, k: int)
    requires |a| == PackedSize(n) && |b| == n + 1 && 1 <= k <= n
    requires PivotsBefore(a, n, k) && Abs(Cell(a, n, k, k)) >= EPS
    ensures PivotsBefore(StepA(a, n, k), n, k + 1)
  {
    forall k' | 1 <= k' <= k
      ensures Cell(StepA(a, n, k), n, k', k') == Cell(a, n, k', k')
    {
      StepKeepsRows(a, b, n, k, k', k');
    }
  }

  /**
   * Step `k` subtracts the same product twice from an entry `(p, q)` off the
   * diagonal, once when the loops stand at `(p, q)` and once at `(q, p)`,
   * and once from an entry on the diagonal.
   */
  lemma StepDecrementsTwice(a: seq<real>, n: nat, k: int, p: int, q: int)
    requires |a| == PackedSize(n) && 1 <= k < p <= q <= n && Cell(a, n, k, k) != 0.0
    ensures p < q ==> Cell(StepA(a, n, k), n, p, q) == Cell(a, n, p, q) - 2.0 * Decrement(a, n, k, p, q)
    ensures p == q ==> Cell(StepA(a, n, k), n, p, q) == Cell(a, n, p, q) - Decrement(a, n, k, p, q)
  {
    UnpackPlace(p, q, n);
    var c, x, y := Cell(a, n, k, k), Cell(a, n, k, p), Cell(a, n, k, q);
    assert Cell(a, n, p, k) == x && Cell(a, n, q, k) == y;
    assert Decrement(a, n, k, q, p) == y / c * x;
    assert Decrement(a, n, k, p, q) == x / c * y;
    assert y / c * x == x / c * y;
  }

  /**
   * The all-ones 3 x 3 matrix: dense elimination with pivot `(1, 1)` makes
   * entry `(2, 3)` zero, the packed step leaves `-1` there.
   */
  lemma DoubleDecrementExample()
    ensures Cell(StepA(seq(6, idx => 1.0), 3, 1), 3, 2, 3) == -1.0
  {
    var a := seq(6, idx => 1.0);
    assert PackedSize(3) == 6;
    assert Cell(a, 3, 1, 1) == 1.0 && Cell(a, 3, 2, 3) == 1.0 && Cell(a, 3, 2, 1) == 1.0 && Cell(a, 3, 1, 3) == 1.0;
    StepDecrementsTwice(a, 3, 1, 2, 3);
  }

  /** `a(k, k + 1) * x[k + 1] + ... + a(k, m) * x[m]`, accumulated from the left. */
  ghost function RowTail(a: seq<real>, n: nat, k: int, x: seq<real>, m: int): real
    requires |a| == PackedSize(n) && |x| == n + 1 && 1 <= k <= n && m <= n
    decreases m
  {
    if m <= k then 0.0 else RowTail(a, n, k, x, m - 1) + Cell(a, n, k, m) * x[m]
  }

  /** The tail of row `k` only reads `x[k + 1..m]`. */
  lemma {:induction false} RowTailFrame(a: seq<real>, n: nat, k: int, x: seq<real>, x': seq<real>, m: int)
    requires |a| == PackedSize(n) && |x| == |x'| == n + 1 && 1 <= k <= n && m <= n
    requires forall j :: k < j <= m ==> x[j] == x'[j]
    ensures RowTail(a, n, k, x, m) == RowTail(a, n, k, x', m)
    decreases m
  {
    if m > k {
      RowTailFrame(a, n, k, x, x', m - 1);
    }
  }

  /** `tmp` of the back substitution: `b[k]` minus the tail of row `k` against the solved `b[k + 1..n]`. */
  method BackRow(a: array<real>, b: array<real>, n: nat, k: int) returns (tmp: real)
    requires a.Length == PackedSize(n) && b.Length == n + 1 && 1 <= k <= n
    ensures tmp == b[k] - RowTail(a[..], n, k, b[..], n)
  {
    tmp := b[k];
    for j := k + 1 to n + 1
      invariant tmp == b[k] - RowTail(a[..], n, k, b[..], j - 1)
    {
      var akj := ReadCell(a, n, k, j);
      tmp := tmp - akj * b[j];
    }
  }

  /** The left-hand side of row `k` of the reduced triangular system at `x`. */
  ghost function RowValue(a: seq<real>, n: nat, k: int, x: seq<real>): real
    requires |a| == PackedSize(n) && |x| == n + 1 && 1 <= k <= n
  {
    Cell(a, n, k, k) * x[k] + RowTail(a, n, k, x, n)
  }

  /** Rows `k..n` of the triangular system hold for `x`, against right-hand side `x0`. */
  ghost predicate SolvedFrom(a: seq<real>, n: nat, x: seq<real>, x0: seq<real>, k: int)
    requires |a| == PackedSize(n) && |x| == |x0| == n + 1 && 1 <= k
  {
    forall k' :: k <= k' <= n ==> RowValue(a, n, k', x) == x0[k']
  }

  /** Row `k'` reads only `x[k'..n]`. */
  lemma RowValueFrame(a: seq<real>, n: nat, k': int, x: seq<real>, x': seq<real>)
    requires |a| == PackedSize(n) && |x| == |x'| == n + 1 && 1 <= k' <= n
    requires forall j :: k' <= j <= n ==> x[j] == x'[j]
    ensures RowValue(a, n, k', x) == RowValue(a, n, k', x')
  {
    RowTailFrame(a, n, k', x, x', n);
  }

  /** Writing row `k`'s solution into `x[k]` keeps rows `k + 1..n` solved and solves row `k`. */
  lemma BackStep(a: seq<real>, n: nat, x: seq<real>, x': seq<real>, x0: seq<real>, k: int, v: real)
    requires |a| == PackedSize(n) && |x| == |x0| == n + 1 && 1 <= k <= n
    requires SolvedFrom(a, n, x, x0, k + 1) && x' == x[k := v]
    requires Cell(a, n, k, k) * v == x0[k] - RowTail(a, n, k, x, n)
    ensures SolvedFrom(a, n, x', x0, k)
  {
    forall k' | k < k' <= n
      ensures RowValue(a, n, k', x') == x0[k']
    {
      RowValueFrame(a, n, k', x, x');
    }
    RowTailFrame(a, n, k, x, x', n);
    RowValueAt(a, n, k, x', v, RowTail(a, n, k, x, n));
  }

  lemma RowValueAt(a: seq<real>, n: nat, k: int, x: seq<real>, v: real, t: real)
    requires |a| == PackedSize(n) && |x| == n + 1 && 1 <= k <= n
    requires x[k] == v && RowTail(a, n, k, x, n) == t
    ensures RowValue(a, n, k, x) == Cell(a, n, k, k) * v + t
  {
  }

  /** Entry `(i, j)` read through `get_upper_index`. */
  method ReadCell(a: array<real>, n: nat, i: int, j: int) returns (v: real)
    requires a.Length == PackedSize(n) && 1 <= i <= n && 1 <= j <= n
    ensures v == Cell(a[..], n, i, j)
  {
    var idx := UpperIndex(i, j, n);
    v := a[idx];
  }

  /** Row `k` of the back substitution: `b[k] := (b[k] - tail) / a(k, k)`, once rows `k + 1..n` are solved. */
  method SolveRow(a: array<real>, b: array<real>, n: nat, k: int, ghost b0: seq<real>)
    requires a.Length == PackedSize(n) && b.Length == |b0| == n + 1 && 1 <= k <= n && a != b
    requires Cell(a[..], n, k, k) != 0.0
    requires SolvedFrom(a[..], n, b[..], b0, k + 1) && b[k] == b0[k]
    modifies b
    ensures SolvedFrom(a[..], n, b[..], b0, k)
    ensures forall i :: 0 <= i < k ==> b[i] == old(b[i])
  {
    var tmp := BackRow(a, b, n, k);
    var pivot := ReadCell(a, n, k, k);
    ghost var before := b[..];
    var v := tmp / pivot;
    DivCancel(pivot, tmp);
    b[k] := v;
    BackStep(a[..], n, before, b[..], b0, k, v);
  }

  /**
   * The back substitution of `gauss_symmetric`. The pivots `1..n - 1`
   * passed the check of forward elimination; `a(n, n)` is divided by
   * unchecked, so a zero there is an outcome of its own, which leaves `b` as
   * it was. Otherwise `b` solves the reduced triangular system exactly.
   */
  method BackSubstitute(a: array<real>, b: array<real>, n: nat) returns (solved: bool)
    requires a.Length == PackedSize(n) && b.Length == n + 1 && n >= 1 && a != b
    requires PivotsBefore(a[..], n, n)
    modifies b
    ensures solved <==> Cell(a[..], n, n, n) != 0.0
    ensures !solved ==> b[..] == old(b[..])
    ensures solved ==> SolvedFrom(a[..], n, b[..], old(b[..]), 1) && b[0] == old(b[0])
  {
    var last := ReadCell(a, n, n, n);
    if last == 0.0 {
      return false;
    }
    ghost var b0 := b[..];
    ghost var before := b[..];
    var v := b[n] / last;
    DivCancel(last, b[n]);
    b[n] := v;
    BackStep(a[..], n, before, b[..], b0, n, v);
    var k := n - 1;
    while k >= 1
      invariant 0 <= k < n
      invariant SolvedFrom(a[..], n, b[..], b0, k + 1)
      invariant forall i :: 0 <= i <= k ==> b[i] == b0[i]
    {
      assert Abs(Cell(a[..], n, k, k)) >= EPS;
      SolveRow(a, b, n, k, b0);
      k := k - 1;
    }
    solved := true;
  }

  /** How `gauss_symmetric` ends: with the solution in `b`, by the abort at a step, or dividing by a zero `a(n, n)`. */
  datatype Outcome = Solved | Singular(step: int) | ZeroLastPivot

  /**
   * What `gauss_symmetric` leaves, against forward elimination from `a0`,
   * `b0`: an abort exactly when elimination stops, and otherwise the reduced
   * matrix in `a` and, unless `a(n, n)` is zero, the solution of the reduced
   * triangular system in `b`.
   */
  ghost predicate GaussOutcome(a0: seq<real>, b0: seq<real>, n: nat, outcome: Outcome, a: seq<real>, b: seq<real>)
    requires |a0| == |a| == PackedSize(n) && |b0| == |b| == n + 1 && n >= 1
  {
    match Eliminate(a0, b0, n, n - 1)
    case Stopped(step) => outcome == Singular(step)
    case Reduced(ra, rb) =>
      a == ra && !outcome.Singular?
      && (outcome == ZeroLastPivot <==> Cell(a, n, n, n) == 0.0)
      && (outcome == ZeroLastPivot ==> b == rb)
      && (outcome == Solved ==> SolvedFrom(a, n, b, rb, 1) && b[0] == rb[0])
  }

  /**
   * `gauss_symmetric`: forward elimination, then back substitution over
   * the packed matrix, the solution overwriting `b[1..n]`.
   */
  method GaussSymmetric(a: array<real>, b: array<real>, n: nat) returns (outcome: Outcome)
    requires a.Length == PackedSize(n) && b.Length == n + 1 && n >= 1 && a != b
    modifies a, b
    ensures GaussOutcome(old(a[..]), old(b[..]), n, outcome, a[..], b[..])
  {
    var singular, step := Forward(a, b, n);
    if singular {
      return Singular(step);
    }
    var solved := BackSubstitute(a, b, n);
    outcome := if solved then Solved else ZeroLastPivot;
  }
}
