/** The exact arithmetic by which a range of `len` consecutive integers starting at `lb`
    is split into `size` nearly equal consecutive pieces. Range.java and LongRange.java
    both compute it (in `long` and in `BigInteger` respectively), before casting the
    bounds back to their own width; the casts are modelled in those modules. */
module Partition {

  /** Number of integers in `lb..ub` (0 when `lb > ub`). */
  function Count(lb: int, ub: int): (n: nat)
    ensures n == 0 <==> lb > ub
    ensures n > 0 ==> ub == lb + n - 1
  {
    if lb > ub then 0 else ub - lb + 1
  }

  /** The integers `lb..ub`, one at a time from the top. */
  function Members(lb: int, ub: int): (m: set<int>)
    ensures forall v :: v in m <==> lb <= v <= ub
    decreases ub - lb
  {
    if lb > ub then {} else Members(lb, ub - 1) + {ub}
  }

  /** `Count` is the number of integers in the range. */
  lemma {:induction false} CountIsCardinality(lb: int, ub: int)
    ensures |Members(lb, ub)| == Count(lb, ub)
    decreases ub - lb
  {
    if lb <= ub {
      CountIsCardinality(lb, ub - 1);
      assert ub !in Members(lb, ub - 1);
    }
  }

  /** Length of piece `rank`: the quotient, plus one for the first `len % size` pieces. */
  function PieceLen(len: nat, size: nat, rank: nat): nat
    requires size >= 1
  {
    if rank < len % size then len / size + 1 else len / size
  }

  /** Lower bound of piece `rank`, as `subrange` computes it. Defined for every rank,
      so that `PieceLb(.., size)` is the bound just past the last piece. */
  function PieceLb(lb: int, len: nat, size: nat, rank: nat): int
    requires size >= 1
  {
    var sublen := len / size;
    var subrem := len % size;
    if rank < subrem then lb + rank * (sublen + 1) else lb + subrem + rank * sublen
  }

  /** Total length of pieces `0 .. n-1`. */
  function SumLen(len: nat, size: nat, n: nat): nat
    requires size >= 1
  {
    if n == 0 then 0 else SumLen(len, size, n - 1) + PieceLen(len, size, n - 1)
  }

  /** Each piece starts right after the previous one ends. */
  lemma PieceLbStep(lb: int, len: nat, size: nat, rank: nat)
    requires size >= 1
    ensures PieceLb(lb, len, size, rank + 1) == PieceLb(lb, len, size, rank) + PieceLen(len, size, rank)
  {
    var q, m := len / size, len % size;
    if rank + 1 < m {
      assert (rank + 1) * (q + 1) == rank * (q + 1) + (q + 1);
    } else if rank + 1 == m {
      assert (rank + 1) * q + m == rank * (q + 1) + (q + 1);
    } else {
      assert (rank + 1) * q == rank * q + q;
    }
  }

  /** The pieces before `n` span exactly from `lb` to the start of piece `n`. */
  lemma {:induction false} SumLenSpan(lb: int, len: nat, size: nat, n: nat)
    requires size >= 1
    ensures PieceLb(lb, len, size, 0) == lb
    ensures PieceLb(lb, len, size, n) == lb + SumLen(len, size, n)
  {
    if n > 0 {
      SumLenSpan(lb, len, size, n - 1);
      PieceLbStep(lb, len, size, n - 1);
    }
  }

  /** The pieces end exactly at the end of the range: their lengths add up to `len`. */
  lemma PiecesCoverAll(lb: int, len: nat, size: nat)
    requires size >= 1
    ensures SumLen(len, size, size) == len
    ensures PieceLb(lb, len, size, size) == lb + len
  {
    SumLenSpan(lb, len, size, size);
    assert len == size * (len / size) + len % size;
  }

  /** Pieces never start before `lb` and never reach past `lb + len - 1`. */
  lemma PieceWithin(lb: int, len: nat, size: nat, rank: nat)
    requires 1 <= size && rank < size
    ensures lb <= PieceLb(lb, len, size, rank)
    ensures PieceLb(lb, len, size, rank) + PieceLen(len, size, rank) <= lb + len
  {
    SumLenSpan(lb, len, size, rank);
    PieceLbStep(lb, len, size, rank);
    SumLenSpan(lb, len, size, rank + 1);
    SumLenMonotone(len, size, rank + 1, size);
    PiecesCoverAll(lb, len, size);
  }

  lemma {:induction false} SumLenMonotone(len: nat, size: nat, j: nat, k: nat)
    requires 1 <= size && j <= k
    ensures SumLen(len, size, j) <= SumLen(len, size, k)
    decreases k - j
  {
    if j < k {
      SumLenMonotone(len, size, j, k - 1);
    }
  }

  /** Later pieces never start earlier. */
  lemma PieceLbMonotone(lb: int, len: nat, size: nat, j: nat, k: nat)
    requires 1 <= size && j <= k
    ensures PieceLb(lb, len, size, j) <= PieceLb(lb, len, size, k)
  {
    SumLenSpan(lb, len, size, j);
    SumLenSpan(lb, len, size, k);
    SumLenMonotone(len, size, j, k);
  }
}
