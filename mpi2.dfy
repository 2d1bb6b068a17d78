/**
 * The row-cyclic parallel matrix-vector product of mpi2/1.c.
 *
 * Row `i` of the `n x m` matrix belongs to rank `i % ws`, where `ws` is the
 * number of processes. The matrix and every rank's share of it are stored
 * flat, row by row; row `t` of a flat listing with rows of length `m` starts
 * at `RowStart(t, m)`, which is `t * m`.
 *
 * Message passing is modelled sequentially: every rank's work is run in turn
 * and a matched send/receive is a copy, so the model follows the data, not
 * the timing, of the messages.
 */
module CyclicMatVec {
  import opened Arith
  import opened Vectors
  import opened Text

  /** The number of rows `i < n` with `i % ws == rank`: the `my_rows` of that rank. */
  function RowsOf(n: nat, ws: nat, rank: nat): (c: nat)
    requires ws >= 1
    ensures c <= n
  {
    if n == 0 then 0 else RowsOf(n - 1, ws, rank) + (if (n - 1) % ws == rank then 1 else 0)
  }

  /** `RowsOf` summed over the ranks `0..k)`. */
  function RowsBelowRank(n: nat, ws: nat, k: nat): nat
    requires ws >= 1
  {
    if k == 0 then 0 else RowsBelowRank(n, ws, k - 1) + RowsOf(n, ws, k - 1)
  }

  /** Row `i` counts for exactly one of the ranks `0..k)` when its owner is below `k`. */
  lemma {:induction false} OwnerCountedOnce(i: nat, ws: nat, k: nat, n: nat)
    requires ws >= 1 && n == i + 1
    ensures RowsBelowRank(n, ws, k) == RowsBelowRank(i, ws, k) + (if i % ws < k then 1 else 0)
  {
    if k > 0 {
      OwnerCountedOnce(i, ws, k - 1, n);
    }
  }

  /** Every row belongs to exactly one rank, so the shares add up to `n`. */
  lemma {:induction false} RowsOfTotal(n: nat, ws: nat)
    requires ws >= 1
    ensures RowsBelowRank(n, ws, ws) == n
  {
    if n > 0 {
      RowsOfTotal(n - 1, ws);
      OwnerCountedOnce(n - 1, ws, ws, n);
    } else {
      RowsZero(ws, ws);
    }
  }

  lemma {:induction false} RowsZero(ws: nat, k: nat)
    requires ws >= 1
    ensures RowsBelowRank(0, ws, k) == 0
  {
    if k > 0 {
      RowsZero(ws, k - 1);
    }
  }

  /** The number of rows `i < n` with `i % ws != 0`: the rows rank 0 sends. */
  function RowsSent(n: nat, ws: nat): nat
    requires ws >= 1
  {
    if n == 0 then 0 else RowsSent(n - 1, ws) + (if (n - 1) % ws != 0 then 1 else 0)
  }

  /** Rank 0 sends, and later waits on, exactly `n - my_rows` rows. */
  lemma {:induction false} RowsSentComplement(n: nat, ws: nat)
    requires ws >= 1
    ensures RowsSent(n, ws) == n - RowsOf(n, ws, 0)
  {
    if n > 0 {
      RowsSentComplement(n - 1, ws);
    }
  }

  /** The rows of a rank before row `i` are fewer than those before any later row of the same rank. */
  lemma {:induction false} RowsOfStrict(i: nat, n: nat, ws: nat)
    requires ws >= 1 && i < n
    ensures RowsOf(i, ws, i % ws) < RowsOf(n, ws, i % ws)
  {
    if n > i + 1 {
      RowsOfStrict(i, n - 1, ws);
    }
  }

  /** Euclidean division is unique: a quotient and remainder in range are `/` and `%`. */
  lemma DivModUnique(y: int, q: int, rem: int, w: int)
    requires w >= 1 && 0 <= rem < w && y == q * w + rem
    ensures y % w == rem && y / w == q
  {
    var q', rem' := y / w, y % w;
    assert (q - q') * w == rem' - rem;
    if q > q' {
      MulMono(1, q - q', w);
    } else if q < q' {
      MulMono(1, q' - q, w);
    }
  }

  /** Two rows fewer than `ws` apart belong to different ranks. */
  lemma SameOwnerApart(a: nat, b: nat, ws: nat)
    requires ws >= 1 && a < b < a + ws
    ensures a % ws != b % ws
  {
    if a % ws == b % ws {
      var qa, qb := a / ws, b / ws;
      assert b - a == (qb - qa) * ws;
      if qb - qa <= 0 {
        MulMono(qb - qa, 0, ws);
      } else {
        MulMono(1, qb - qa, ws);
      }
    }
  }

  /** The rows `a..a + d)` after a row `a` of rank `r`, for `d <= ws`, hold one row of rank `r` when `d > 0`. */
  lemma {:induction false} OneRowPerRound(a: nat, d: nat, ws: nat, r: nat)
    requires ws >= 1 && a % ws == r && d <= ws
    ensures RowsOf(a + d, ws, r) == RowsOf(a, ws, r) + (if d > 0 then 1 else 0)
  {
    if d > 1 {
      OneRowPerRound(a, d - 1, ws, r);
      SameOwnerApart(a, a + d - 1, ws);
    }
  }

  lemma {:induction false} NoRowsBefore(k: nat, ws: nat, r: nat)
    requires k <= r < ws
    ensures RowsOf(k, ws, r) == 0
  {
    if k > 0 {
      NoRowsBefore(k - 1, ws, r);
      RoundOffset(0, k - 1, ws);
    }
  }

  lemma ModPeriod(a: nat, ws: nat)
    requires ws >= 1
    ensures (a + ws) % ws == a % ws
  {
    var q := a / ws;
    assert (q + 1) * ws == q * ws + ws;
    DivModUnique(a + ws, q + 1, a % ws, ws);
  }

  /** `LocalRowIsGlobal`, with the product `t * ws` counted round by round. */
  lemma {:induction false} LocalRowAfterRounds(r: nat, t: nat, ws: nat)
    requires r < ws
    ensures (r + RowStart(t, ws)) % ws == r
    ensures RowsOf(r + RowStart(t, ws), ws, r) == t
  {
    if t == 0 {
      RoundOffset(0, r, ws);
      NoRowsBefore(r, ws, r);
    } else {
      var a := r + RowStart(t - 1, ws);
      LocalRowAfterRounds(r, t - 1, ws);
      assert r + RowStart(t, ws) == a + ws;
      ModPeriod(a, ws);
      OneRowPerRound(a, ws, ws, r);
    }
  }

  /**
   * Local row `t` of rank `r` is global row `r + t * ws`: that row belongs to
   * `r`, and `t` rows of `r` come before it.
   */
  lemma LocalRowIsGlobal(r: nat, t: nat, ws: nat)
    requires r < ws
    ensures (r + t * ws) % ws == r
    ensures RowsOf(r + t * ws, ws, r) == t
  {
    RowStartIsProduct(t, ws);
    LocalRowAfterRounds(r, t, ws);
  }

  /** Row `i` is local row `i / ws` of its rank `i % ws`. */
  lemma LocalIndexIsQuotient(i: nat, ws: nat)
    requires ws >= 1
    ensures RowsOf(i, ws, i % ws) == i / ws
  {
    var q, r := i / ws, i % ws;
    assert i == r + q * ws;
    LocalRowIsGlobal(r, q, ws);
  }

  /** In a round starting at a multiple of `ws`, the rows before offset `r` are not rank `r`'s. */
  lemma {:induction false} NoRowsEarlyInRound(a: nat, k: nat, ws: nat, r: nat)
    requires k <= r < ws && a % ws == 0
    ensures RowsOf(a + k, ws, r) == RowsOf(a, ws, r)
  {
    if k > 0 {
      NoRowsEarlyInRound(a, k - 1, ws, r);
      RoundOffset(a, k - 1, ws);
    }
  }

  /** Offset `j < ws` into a round starting at a multiple of `ws` has remainder `j`. */
  lemma RoundOffset(a: nat, j: nat, ws: nat)
    requires j < ws && a % ws == 0
    ensures (a + j) % ws == j
  {
    var q := a / ws;
    assert a == q * ws;
    DivModUnique(a + j, q, j, ws);
  }

  /** The first `s` rows of a round starting at a multiple of `ws` hold one row of rank `r` exactly when `r < s`. */
  lemma PartialRound(a: nat, s: nat, ws: nat, r: nat)
    requires r < ws && s <= ws && a % ws == 0
    ensures RowsOf(a + s, ws, r) == RowsOf(a, ws, r) + (if r < s then 1 else 0)
  {
    if s <= r {
      NoRowsEarlyInRound(a, s, ws, r);
    } else {
      NoRowsEarlyInRound(a, r, ws, r);
      RoundOffset(a, r, ws);
      OneRowPerRound(a + r, s - r, ws, r);
    }
  }

  lemma {:induction false} RowsOfRounds(q: nat, ws: nat, r: nat)
    requires r < ws
    ensures RowStart(q, ws) % ws == 0
    ensures RowsOf(RowStart(q, ws), ws, r) == q
  {
    LocalRowAfterRounds(0, q, ws);
    if q > 0 {
      RowsOfRounds(q - 1, ws, r);
      PartialRound(RowStart(q - 1, ws), ws, ws, r);
    }
  }

  /** Rank `r` owns `n / ws` rows, plus one when it is among the first `n % ws` ranks. */
  lemma RowsOfClosedForm(n: nat, ws: nat, r: nat)
    requires r < ws
    ensures RowsOf(n, ws, r) == n / ws + (if r < n % ws then 1 else 0)
  {
    var q, s := n / ws, n % ws;
    RowStartIsProduct(q, ws);
    assert n == RowStart(q, ws) + s;
    RowsOfRounds(q, ws, r);
    PartialRound(RowStart(q, ws), s, ws, r);
  }

  /** Row `t` of a flat listing with rows of length `m`. */
  function Row(flat: seq<real>, m: nat, t: nat): (row: seq<real>)
    requires RowStart(t, m) + m <= |flat|
    ensures |row| == m
  {
    flat[RowStart(t, m)..RowStart(t, m) + m]
  }

  /** Local row `t` of `part` is a copy of global row `i` of `matrix`. */
  ghost predicate RowCopied(part: seq<real>, matrix: seq<real>, m: nat, t: nat, i: nat)
  {
    RowStart(t, m) + m <= |part| && RowStart(i, m) + m <= |matrix|
    && Row(part, m, t) == Row(matrix, m, i)
  }

  /** `value` is the inner product of row `t` of `flat` with `vector`. */
  ghost predicate IsRowProduct(value: real, flat: seq<real>, m: nat, t: nat, vector: seq<real>)
  {
    RowStart(t, m) + m <= |flat| && |vector| == m
    && value == Inner(Row(flat, m, t), vector, 0, m - 1)
  }

  /** A row lying in an unchanged prefix is unchanged. */
  lemma RowOfPrefix(flat: seq<real>, flat': seq<real>, m: nat, t: nat, k: nat)
    requires RowStart(t, m) + m <= k <= |flat| && k <= |flat'|
    requires flat[..k] == flat'[..k]
    ensures Row(flat, m, t) == Row(flat', m, t)
  {
    assert Row(flat, m, t) == flat[..k][RowStart(t, m)..RowStart(t, m) + m];
    assert Row(flat', m, t) == flat'[..k][RowStart(t, m)..RowStart(t, m) + m];
  }

  /** The `my_rows` loop: how many rows rank `rank` owns. */
  method CountMyRows(n: nat, ws: nat, rank: nat) returns (myRows: nat)
    requires ws >= 1
    ensures myRows == RowsOf(n, ws, rank)
    ensures rank < ws ==> myRows == n / ws + (if rank < n % ws then 1 else 0)
  {
    myRows := 0;
    for i := 0 to n
      invariant myRows == RowsOf(i, ws, rank)
    {
      if i % ws == rank {
        myRows := myRows + 1;
      }
    }
    if rank < ws {
      RowsOfClosedForm(n, ws, rank);
    }
  }

  /** `part` holds, as its local rows, the rows `i < upto` of `matrix` that belong to `rank`. */
  ghost predicate HoldsRowsBelow(part: seq<real>, matrix: seq<real>, m: nat, ws: nat, rank: nat, upto: nat)
    requires ws >= 1
  {
    forall i :: 0 <= i < upto && i % ws == rank ==> RowCopied(part, matrix, m, RowsOf(i, ws, rank), i)
  }

  /** Placing row `i` of `rank` after the rows placed so far keeps them and adds it. */
  lemma PlaceRowKeeps(before: seq<real>, after: seq<real>, matrix: seq<real>, m: nat, ws: nat, rank: nat, i: nat)
    requires ws >= 1 && i % ws == rank && HoldsRowsBelow(before, matrix, m, ws, rank, i)
    requires RowCopied(after, matrix, m, RowsOf(i, ws, rank), i)
    requires RowStart(RowsOf(i, ws, rank), m) <= |before| && RowStart(RowsOf(i, ws, rank), m) <= |after|
    requires after[..RowStart(RowsOf(i, ws, rank), m)] == before[..RowStart(RowsOf(i, ws, rank), m)]
    ensures HoldsRowsBelow(after, matrix, m, ws, rank, i + 1)
  {
    var idx := RowsOf(i, ws, rank);
    forall i' | 0 <= i' < i + 1 && i' % ws == rank
      ensures RowCopied(after, matrix, m, RowsOf(i', ws, rank), i')
    {
      if i' < i {
        RowsOfStrict(i', i, ws);
        RowStartMono(RowsOf(i', ws, rank), idx, m);
        RowOfPrefix(after, before, m, RowsOf(i', ws, rank), RowStart(idx, m));
      }
    }
  }

  /**
   * The row distribution seen from rank `rank`: row `i` of `matrix` goes to
   * rank `i % ws`, into the next free row of its share. Rank 0 copies its own
   * rows and sends the others (`sent` counts the sends); every other rank
   * receives its rows from rank 0, in the order rank 0 sends them.
   */
  method Distribute(matrix: array<real>, n: nat, m: nat, ws: nat, rank: nat, myRows: nat)
    returns (part: array<real>, sent: nat)
    requires ws >= 1 && rank < ws && matrix.Length == RowStart(n, m)
    requires myRows == RowsOf(n, ws, rank)
    ensures part.Length == RowStart(myRows, m)
    ensures forall i :: 0 <= i < n && i % ws == rank ==>
      RowCopied(part[..], matrix[..], m, RowsOf(i, ws, rank), i)
    ensures sent == if rank == 0 then n - myRows else 0
  {
    part := new real[RowStart(myRows, m)];
    sent := 0;
    var idx := 0;
    for i := 0 to n
      invariant idx == RowsOf(i, ws, rank)
      invariant sent == if rank == 0 then RowsSent(i, ws) else 0
      invariant HoldsRowsBelow(part[..], matrix[..], m, ws, rank, i)
    {
      if i % ws == rank {
        RowsOfStrict(i, n, ws);
        RowStartMono(i, n, m);
        if idx + 1 < myRows {
          RowStartMono(idx, myRows, m);
        }
        ghost var before := part[..];
        PlaceRow(matrix, i, part, idx, m);
        PlaceRowKeeps(before, part[..], matrix[..], m, ws, rank, i);
        idx := idx + 1;
      } else if rank == 0 {
        sent := sent + 1;
      }
    }
    if rank == 0 {
      RowsSentComplement(n, ws);
    }
  }

  /** Every rank's inner products of its rows with the broadcast vector. */
  method LocalProducts(part: array<real>, vector: array<real>, myRows: nat, m: nat)
    returns (results: array<real>)
    requires part.Length == RowStart(myRows, m) && vector.Length == m
    ensures results.Length == myRows
    ensures forall t :: 0 <= t < myRows ==> IsRowProduct(results[t], part[..], m, t, vector[..])
  {
    results := new real[myRows];
    for t := 0 to myRows
      invariant forall q :: 0 <= q < t ==> IsRowProduct(results[q], part[..], m, q, vector[..])
    {
      if t + 1 < myRows {
        RowStartMono(t, myRows, m);
      }
      var base := RowOffset(t, m);
      AccumulateRow(part, base, vector, m, results, t);
    }
  }

  /** Copies row `i` of `matrix` into local row `idx` of `part`, at the C offsets `i * m` and `idx * m`. */
  method PlaceRow(matrix: array<real>, i: nat, part: array<real>, idx: nat, m: nat)
    requires RowStart(i, m) + m <= matrix.Length && RowStart(idx, m) + m <= part.Length
    requires part != matrix
    modifies part
    ensures RowCopied(part[..], matrix[..], m, idx, i)
    ensures part[..RowStart(idx, m)] == old(part[..RowStart(idx, m)])
  {
    var start, source := RowOffset(idx, m), RowOffset(i, m);
    CopyRow(matrix, source, part, start, m);
  }

  /** One `memcpy`, or one matched send and receive, of a row of `m` entries. */
  method CopyRow(source: array<real>, from: nat, target: array<real>, to: nat, m: nat)
    requires from + m <= source.Length && to + m <= target.Length && source != target
    modifies target
    ensures target[to..to + m] == source[from..from + m]
    ensures target[..to] == old(target[..to])
    ensures target[to + m..] == old(target[to + m..])
  {
    forall j | 0 <= j < m {
      target[to + j] := source[from + j];
    }
  }

  /** The inner loop of the local products: row `part[base..base + m)` times `vector`, into `results[t]`. */
  method AccumulateRow(part: array<real>, base: nat, vector: array<real>, m: nat, results: array<real>, t: nat)
    requires base + m <= part.Length && vector.Length == m && t < results.Length
    requires results != part && results != vector
    modifies results
    ensures results[t] == Inner(part[base..base + m], vector[..], 0, m - 1)
    ensures forall q :: 0 <= q < results.Length && q != t ==> results[q] == old(results[q])
  {
    ghost var row := part[base..base + m];
    results[t] := 0.0;
    for j := 0 to m
      invariant results[t] == Inner(row, vector[..], 0, j - 1)
      invariant forall q :: 0 <= q < results.Length && q != t ==> results[q] == old(results[q])
    {
      InnerStep(row, vector[..], 0, j);
      results[t] := results[t] + part[base + j] * vector[j];
    }
  }

  /** `value` is what rank `i % ws` computed for row `i`: its local result `RowsOf(i, ws, i % ws)`. */
  ghost predicate GatheredFrom(value: real, shares: seq<array<real>>, ws: nat, i: nat)
    requires ws >= 1 && |shares| == ws
    reads set r | 0 <= r < ws :: shares[r]
  {
    RowsOf(i, ws, i % ws) < shares[i % ws].Length && value == shares[i % ws][RowsOf(i, ws, i % ws)]
  }

  /**
   * The gather at rank 0: entry `i` of the result comes from rank `i % ws`,
   * which holds it as its next unsent local result. One counter per rank
   * stands for rank 0's `own_res_idx` and each other rank's send counter.
   */
  method Gather(shares: seq<array<real>>, n: nat, ws: nat) returns (result: array<real>)
    requires ws >= 1 && |shares| == ws
    requires forall r :: 0 <= r < ws ==> shares[r].Length == RowsOf(n, ws, r)
    ensures result.Length == n
    ensures forall i :: 0 <= i < n ==> GatheredFrom(result[i], shares, ws, i)
  {
    result := new real[n];
    var counts: seq<nat> := seq(ws, r => 0);
    for i := 0 to n
      invariant |counts| == ws
      invariant forall r :: 0 <= r < ws ==> counts[r] == RowsOf(i, ws, r)
      invariant forall i' :: 0 <= i' < i ==> GatheredFrom(result[i'], shares, ws, i')
    {
      var source := i % ws;
      RowsOfStrict(i, n, ws);
      result[i] := shares[source][counts[source]];
      counts := counts[source := counts[source] + 1];
    }
  }

  /**
   * The whole program after the input is read: every rank counts its rows,
   * receives them, multiplies them by the vector, and rank 0 gathers the
   * results. Whatever the number of processes, entry `i` of the result is
   * row `i` of the matrix times the vector.
   */
  method DistributedProduct(matrix: array<real>, vector: array<real>, n: nat, m: nat, ws: nat)
    returns (result: array<real>)
    requires ws >= 1 && matrix.Length == n * m && vector.Length == m
    ensures result.Length == n
    ensures forall i :: 0 <= i < n ==> IsRowProduct(result[i], matrix[..], m, i, vector[..])
  {
    RowStartIsProduct(n, m);
    var shares: seq<array<real>> := [];
    for rank := 0 to ws
      invariant |shares| == rank
      invariant forall r :: 0 <= r < rank ==> shares[r].Length == RowsOf(n, ws, r)
      invariant forall i :: 0 <= i < n && i % ws < rank ==>
        RowsOf(i, ws, i % ws) < shares[i % ws].Length
        && IsRowProduct(shares[i % ws][RowsOf(i, ws, i % ws)], matrix[..], m, i, vector[..])
    {
      var myRows := CountMyRows(n, ws, rank);
      var part, sent := Distribute(matrix, n, m, ws, rank, myRows);
      var local := LocalProducts(part, vector, myRows, m);
      forall i | 0 <= i < n && i % ws == rank
        ensures RowsOf(i, ws, rank) < local.Length
        ensures IsRowProduct(local[RowsOf(i, ws, rank)], matrix[..], m, i, vector[..])
      {
        RowsOfStrict(i, n, ws);
      }
      shares := shares + [local];
    }
    result := Gather(shares, n, ws);
  }

  /** `get_vector_size`: how many numbers are read before the first failing `fscanf`. */
  method VectorSize(tokens: seq<Token>) returns (size: nat)
    ensures NumberRun(tokens, size)
  {
    size := 0;
    while size < |tokens| && tokens[size].Number?
      invariant NumbersFirst(tokens, size)
    {
      size := size + 1;
    }
  }

  /**
   * The reading loops of `main`: `count` numbers, or failure (and an abort)
   * at the first `fscanf` that does not yield one.
   */
  method ReadNumbers(tokens: seq<Token>, count: nat) returns (ok: bool, values: array<real>)
    ensures ok <==> NumbersFirst(tokens, count)
    ensures ok ==> values.Length == count && values[..] == Values(tokens, count)
  {
    values := new real[count];
    for i := 0 to count
      invariant NumbersFirst(tokens, i)
      invariant forall k :: 0 <= k < i ==> values[k] == tokens[k].value
    {
      if i >= |tokens| || !tokens[i].Number? {
        return false, values;
      }
      values[i] := tokens[i].value;
    }
    ok := true;
  }

  /** The column count of `get_matrix_dimensions`: `strtok` over the first line. */
  method CountColumns(line: string) returns (cols: nat)
    ensures cols == TokenCount(line)
  {
    var len := StrLen(line);
    var s := line[..len];
    cols := 0;
    for k := 0 to len
      invariant cols == Tokens(s[..k])
    {
      assert s[..k + 1][..k] == s[..k];
      if !IsDelim(s[k]) && (k == 0 || IsDelim(s[k - 1])) {
        cols := cols + 1;
      }
    }
    assert s[..len] == s;
  }

  /**
   * `get_matrix_dimensions`: an empty file has no rows and no columns;
   * otherwise the first line counts as a row and gives the columns, and
   * every later line counts as a row when its `strlen` exceeds 1.
   */
  method MatrixDimensions(lines: seq<string>) returns (rows: nat, cols: nat)
    ensures lines == [] ==> rows == 0 && cols == 0
    ensures lines != [] ==> rows == 1 + Count(lines[1..], LongLine)
    ensures lines != [] ==> cols == TokenCount(lines[0])
  {
    rows, cols := 0, 0;
    if lines != [] {
      cols := CountColumns(lines[0]);
      var more := CountLongLines(lines[1..]);
      rows := 1 + more;
    }
  }

  /**
   * `main`: read the dimensions and the data, abort when the vector length
   * differs from the column count or the matrix file holds too few numbers,
   * and otherwise compute the product on `ws` processes.
   */
  method Run(matrixLines: seq<string>, matrixTokens: seq<Token>, vectorTokens: seq<Token>, ws: nat)
    returns (ok: bool, n: nat, m: nat, result: array<real>)
    requires ws >= 1
    ensures matrixLines == [] ==> n == 0 && m == 0
    ensures matrixLines != [] ==> n == 1 + Count(matrixLines[1..], LongLine)
    ensures matrixLines != [] ==> m == TokenCount(matrixLines[0])
    ensures ok <==> NumberRun(vectorTokens, m) && NumbersFirst(matrixTokens, n * m)
    ensures ok ==> result.Length == n
    ensures ok ==> forall i :: 0 <= i < n ==>
      IsRowProduct(result[i], Values(matrixTokens, n * m), m, i, Values(vectorTokens, m))
  {
    n, m := MatrixDimensions(matrixLines);
    var vecDim := VectorSize(vectorTokens);
    result := new real[0];
    if m != vecDim {
      ok := false;
      if NumberRun(vectorTokens, m) {
        NumberRunUnique(vectorTokens, m, vecDim);
      }
      return;
    }
    var matrix, vector;
    ok, matrix := ReadNumbers(matrixTokens, n * m);
    if !ok {
      return;
    }
    var vectorOk;
    vectorOk, vector := ReadNumbers(vectorTokens, m);
    assert vectorOk;
    result := DistributedProduct(matrix, vector, n, m, ws);
  }
}
