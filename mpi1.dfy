/**
 * The two-process vector doubling program of mpi1/1.c: rank 0 sends its
 * vector to rank 1, rank 1 doubles it with `bai` and sends it back, and the
 * other ranks take no part.
 *
 * Message passing is modelled sequentially: a matched send/receive pair is
 * a copy from the sender's buffer into the receiver's, and the program's
 * steps run in the order the messages force.
 */
module VectorDoubling {

  /** Every entry of `s` times 2. */
  function Doubled(s: seq<real>): (r: seq<real>)
    ensures |r| == |s|
  {
    seq(|s|, i requires 0 <= i < |s| => 2.0 * s[i])
  }

  /** Halving undoes doubling, so doubling loses nothing. */
  lemma DoubledInjective(s: seq<real>, t: seq<real>)
    requires Doubled(s) == Doubled(t)
    ensures s == t
  {
    assert |s| == |t|;
    forall i | 0 <= i < |s|
      ensures s[i] == t[i]
    {
      assert Doubled(s)[i] == Doubled(t)[i];
    }
  }

  lemma DoubledExample()
    ensures Doubled([1.0, 2.0, 3.0]) == [2.0, 4.0, 6.0]
  {
    var d := Doubled([1.0, 2.0, 3.0]);
    assert d[0] == 2.0 && d[1] == 4.0 && d[2] == 6.0;
  }

  /** `bai`: doubles `a[0..n)` in place and touches nothing else. */
  method Bai(a: array<real>, n: nat)
    requires n <= a.Length
    modifies a
    ensures a[..n] == Doubled(old(a[..n]))
    ensures a[n..] == old(a[n..])
  {
    for i := 0 to n
      invariant a[..i] == Doubled(old(a[..i]))
      invariant a[i..] == old(a[i..])
    {
      a[i] := a[i] * 2.0;
      assert a[..i + 1] == a[..i] + [a[i]];
    }
  }

  /** A matched `MPI_Send`/`MPI_Recv` of `n` doubles: the receiver's buffer takes the sender's values. */
  method Transfer(source: array<real>, target: array<real>, n: nat)
    requires n <= source.Length && n <= target.Length && source != target
    modifies target
    ensures target[..n] == source[..n]
    ensures target[n..] == old(target[n..])
  {
    forall i | 0 <= i < n {
      target[i] := source[i];
    }
  }

  /**
   * The exchange in `main`, one buffer per rank: rank 0 sends to rank 1
   * (tag 9), rank 1 doubles and sends back (tag 10). Rank 0 ends with its
   * vector doubled; the buffers of ranks 2 and up are not touched.
   */
  method Exchange(buffers: seq<array<real>>, n: nat)
    requires |buffers| >= 2
    requires forall r :: 0 <= r < |buffers| ==> buffers[r].Length == n
    requires forall r, s :: 0 <= r < s < |buffers| ==> buffers[r] != buffers[s]
    modifies buffers[0], buffers[1]
    ensures buffers[0][..] == Doubled(old(buffers[0][..]))
    ensures buffers[1][..] == buffers[0][..]
    ensures forall r :: 2 <= r < |buffers| ==> buffers[r][..] == old(buffers[r][..])
  {
    var rank0, rank1 := buffers[0], buffers[1];
    ghost var original := rank0[..];
    Transfer(rank0, rank1, n);
    Bai(rank1, n);
    Transfer(rank1, rank0, n);
    assert rank0[..] == rank0[..n] && rank1[..] == rank1[..n];
    assert original == original[..n];
  }
}
