/** Range.java (Parallel Java 2): an inclusive range `lb..ub` of Java `int`s, empty when
    `lb > ub`, that can be split into nearly equal consecutive subranges. Range objects
    are never changed after construction, so a range is a value here. */
module IntRanges {

  import opened JavaInt
  import opened Wrappers
  import Partition

  datatype Range = Range(lb: Int32, ub: Int32)

  /** The unchecked exceptions Range's methods throw. */
  datatype RangeError = IllegalArgument | IllegalState

  /** `new Range()`: the empty range `0..-1`. */
  function EmptyRange(): (r: Range)
    ensures IsEmpty(r) && BigLength(r) == 0
    ensures forall v: Int32 :: !Contains(r, v)
  {
    Range(0, -1)
  }

  /** `isEmpty()`: a range is empty exactly when its length is zero. */
  predicate IsEmpty(r: Range)
    ensures IsEmpty(r) <==> BigLength(r) == 0
  {
    r.lb > r.ub
  }

  /** `bigLength()`: the exact length, computed in `long` (which cannot overflow here). */
  function BigLength(r: Range): (n: int)
    ensures 0 <= n <= TWO_32
  {
    Partition.Count(r.lb, r.ub)
  }

  /** `bigLength()` is the number of values the range contains. */
  lemma BigLengthCountsMembers(r: Range)
    ensures BigLength(r) == |Partition.Members(r.lb, r.ub)|
    ensures forall v: Int32 :: v in Partition.Members(r.lb, r.ub) <==> Contains(r, v)
  {
    Partition.CountIsCardinality(r.lb, r.ub);
  }

  /** `length()`: the length computed in `int` arithmetic; a negative wrapped value is
      the IllegalStateException. */
  function Length(r: Range): (res: Result<Int32, RangeError>)
    ensures res.Ok? ==> res.value >= 0
    ensures res.Ok? && BigLength(r) <= INT_MAX ==> res.value == BigLength(r)
    ensures res.Err? ==> res.error == IllegalState && BigLength(r) > INT_MAX
  {
    if r.lb > r.ub then Ok(0)
    else
      var len := Wrap32(r.ub - r.lb + 1);
      if len < 0 then Err(IllegalState) else Ok(len)
  }

  /** `contains(value)`: whether `value` is one of the range's members. */
  predicate Contains(r: Range, value: Int32)
    ensures Contains(r, value) <==> value in Partition.Members(r.lb, r.ub)
  {
    r.lb <= value && value <= r.ub
  }

  /** `contains(range)`: both bounds of `other` lie within this range. Every member of
      `other` is then a member of this range. */
  predicate ContainsRange(r: Range, other: Range)
    ensures ContainsRange(r, other) ==> forall v: Int32 :: Contains(other, v) ==> Contains(r, v)
  {
    r.lb <= other.lb && other.ub <= r.ub
  }

  /** `equals`: two empty ranges are equal whatever their bounds. */
  predicate Equals(r: Range, other: Range)
    ensures Equals(r, other) ==> BigLength(r) == BigLength(other)
  {
    (IsEmpty(r) && IsEmpty(other)) || (r.lb == other.lb && r.ub == other.ub)
  }

  /** `subrange(size, rank)`: piece `rank` of `size`, computed in `long` and cast back to
      `int`; `size == 1` returns a copy. */
  function Subrange(r: Range, size: Int32, rank: Int32): (res: Result<Range, RangeError>)
    ensures res.Err? <==> size < 1 || rank < 0 || rank >= size
    ensures res.Err? ==> res.error == IllegalArgument
  {
    if size < 1 then Err(IllegalArgument)
    else if rank < 0 || rank >= size then Err(IllegalArgument)
    else if size == 1 then Ok(r)
    else
      var len := BigLength(r);
      var resultLb := Partition.PieceLb(r.lb, len, size, rank);
      Ok(Range(Wrap32(resultLb), Wrap32(resultLb + Partition.PieceLen(len, size, rank) - 1)))
  }

  /** `subranges(size)`: all `size` pieces, filled into an array by two loops that advance
      the running lower bound `x`. Every element is the subrange of that rank. */
  method Subranges(r: Range, size: Int32) returns (res: Result<seq<Range>, RangeError>)
    ensures res.Err? <==> size < 1
    ensures res.Err? ==> res.error == IllegalArgument
    ensures res.Ok? ==> |res.value| == size as int
    ensures res.Ok? ==> forall k: int :: 0 <= k < size ==> Subrange(r, size, k) == Ok(res.value[k])
  {
    if size < 1 {
      return Err(IllegalArgument);
    }
    if size == 1 {
      return Ok([r]);
    }
    var result := new Range[size](_ => EmptyRange());
    var bigLen := BigLength(r);
    var sublen := bigLen / size as int;
    var subrem := bigLen % size as int;
    var x: int := r.lb;
    sublen := sublen + 1;
    var i := 0;
    while i < subrem
      invariant 0 <= i <= subrem
      invariant x == Partition.PieceLb(r.lb, bigLen, size as int, i)
      invariant forall k: int :: 0 <= k < i ==> Subrange(r, size, k) == Ok(result[k])
    {
      result[i] := Range(Wrap32(x), Wrap32(x + sublen - 1));
      Partition.PieceLbStep(r.lb, bigLen, size as int, i);
      x := x + sublen;
      i := i + 1;
    }
    sublen := sublen - 1;
    while i < size as int
      invariant subrem <= i <= size as int
      invariant x == Partition.PieceLb(r.lb, bigLen, size as int, i)
      invariant forall k: int :: 0 <= k < i ==> Subrange(r, size, k) == Ok(result[k])
    {
      result[i] := Range(Wrap32(x), Wrap32(x + sublen - 1));
      Partition.PieceLbStep(r.lb, bigLen, size as int, i);
      x := x + sublen;
      i := i + 1;
    }
    return Ok(result[..]);
  }

  // ---------------------------------------------------------------------------
  // Emptiness, length, containment and equality

  /** A range is empty exactly when it contains no value. */
  lemma EmptyIffNoMembers(r: Range)
    ensures IsEmpty(r) <==> forall v: Int32 :: !Contains(r, v)
  {
    if !IsEmpty(r) {
      assert Contains(r, r.lb);
    }
  }

  /** `length()` agrees with `bigLength()` whenever the length fits in an `int`; longer
      ranges throw, except the whole `int` range, whose length wraps to 0. */
  lemma LengthMatchesBigLength(r: Range)
    ensures BigLength(r) <= INT_MAX ==> Length(r) == Ok(BigLength(r))
    ensures INT_MAX < BigLength(r) < TWO_32 ==> Length(r) == Err(IllegalState)
    ensures BigLength(r) == TWO_32 ==> r == Range(INT_MIN, INT_MAX) && Length(r) == Ok(0)
  {
    var n := BigLength(r);
    if n > INT_MAX {
      Wrap32By(n, 1);
    }
  }

  /** `contains(range)` is set inclusion whenever the argument is non-empty. An empty
      argument, whose member set is included in every range, is contained only when its
      bounds are: `1..1` does not contain the empty range `0..-1`. */
  lemma ContainsRangeIsInclusion(r: Range, other: Range)
    ensures !IsEmpty(other) ==>
              (ContainsRange(r, other) <==> forall v: Int32 :: Contains(other, v) ==> Contains(r, v))
    ensures IsEmpty(other) ==> forall v: Int32 :: Contains(other, v) ==> Contains(r, v)
    ensures !ContainsRange(Range(1, 1), EmptyRange())
  {
    if !IsEmpty(other) && forall v: Int32 :: Contains(other, v) ==> Contains(r, v) {
      assert Contains(other, other.lb) && Contains(other, other.ub);
    }
  }

  /** `equals` is equality of the sets of contained values. */
  lemma EqualsIsSameMembers(r: Range, other: Range)
    ensures Equals(r, other) <==> forall v: Int32 :: Contains(r, v) <==> Contains(other, v)
  {
    if forall v: Int32 :: Contains(r, v) <==> Contains(other, v) {
      if !IsEmpty(r) {
        assert Contains(other, r.lb) && Contains(other, r.ub);
        assert Contains(r, other.lb) && Contains(r, other.ub);
      } else if !IsEmpty(other) {
        assert Contains(r, other.lb);
      }
    }
  }

  /** `equals` is an equivalence relation. */
  lemma EqualsIsEquivalence(a: Range, b: Range, c: Range)
    ensures Equals(a, a)
    ensures Equals(a, b) ==> Equals(b, a)
    ensures Equals(a, b) && Equals(b, c) ==> Equals(a, c)
  {
    EqualsIsSameMembers(a, b);
    EqualsIsSameMembers(b, c);
    EqualsIsSameMembers(a, c);
  }

  // ---------------------------------------------------------------------------
  // Splitting

  /** No piece bound overflows `int`: the range is empty, ends below `Integer.MAX_VALUE`,
      or is at least as long as the number of pieces. */
  predicate PiecesFit(r: Range, size: int) {
    IsEmpty(r) || r.ub < INT_MAX || BigLength(r) >= size
  }

  /** When the pieces fit, the casts change nothing and piece `rank` is exactly
      `PieceLb .. PieceLb + PieceLen - 1`. */
  lemma SubrangeIsExactPiece(r: Range, size: Int32, rank: Int32)
    requires 2 <= size && 0 <= rank < size && PiecesFit(r, size)
    ensures var len := BigLength(r);
            var lo := Partition.PieceLb(r.lb, len, size, rank);
            var n := Partition.PieceLen(len, size, rank);
            INT_MIN <= lo <= INT_MAX && INT_MIN <= lo + n - 1 <= INT_MAX &&
            Subrange(r, size, rank) == Ok(Range(lo, lo + n - 1))
  {
    var len := BigLength(r);
    Partition.PieceWithin(r.lb, len, size, rank);
    if !IsEmpty(r) && Partition.PieceLen(len, size, rank) == 0 {
      assert rank >= len % size && len / size == 0;
    }
  }

  /** Piece `rank` starts at `PieceLb` and has `PieceLen` elements (a copy of an empty
      range, for `size == 1`, keeps its own upper bound). */
  lemma PieceBounds(r: Range, size: Int32, rank: Int32)
    requires 1 <= size && 0 <= rank < size && PiecesFit(r, size)
    ensures var len := BigLength(r);
            var p := Subrange(r, size, rank).value;
            p.lb == Partition.PieceLb(r.lb, len, size, rank) &&
            BigLength(p) == Partition.PieceLen(len, size, rank) &&
            (size >= 2 || !IsEmpty(r) ==> p.ub == p.lb + BigLength(p) - 1)
  {
    if size >= 2 {
      SubrangeIsExactPiece(r, size, rank);
    }
  }

  /** The pieces tile the range: the first starts at `lb`, each next one starts right
      after the previous one ends, and the last ends at `ub` (for a non-empty range). */
  lemma SubrangesTile(r: Range, size: Int32, rank: Int32)
    requires 1 <= size && 0 <= rank < size && PiecesFit(r, size)
    ensures Subrange(r, size, 0).value.lb == r.lb
    ensures rank + 1 < size ==>
              Subrange(r, size, rank + 1).value.lb == Subrange(r, size, rank).value.ub + 1
    ensures !IsEmpty(r) ==> Subrange(r, size, size - 1).value.ub == r.ub
  {
    var len := BigLength(r);
    assert Subrange(r, size, 0).value.lb == r.lb by {
      PieceBounds(r, size, 0);
      Partition.SumLenSpan(r.lb, len, size, 0);
    }
    if rank + 1 < size {
      assert Subrange(r, size, rank + 1).value.lb == Subrange(r, size, rank).value.ub + 1 by {
        PieceBounds(r, size, rank);
        PieceBounds(r, size, rank + 1);
        Partition.PieceLbStep(r.lb, len, size, rank);
      }
    }
    if !IsEmpty(r) {
      assert Subrange(r, size, size - 1).value.ub == r.ub by {
        PieceBounds(r, size, size - 1);
        Partition.PieceLbStep(r.lb, len, size, size - 1);
        Partition.PiecesCoverAll(r.lb, len, size);
      }
    }
  }

  /** Piece `rank` has `len / size` elements, plus one for the first `len % size` pieces,
      so that the lengths of any two pieces differ by at most one. */
  lemma SubrangeLengthsBalanced(r: Range, size: Int32, j: Int32, k: Int32)
    requires 1 <= size && 0 <= j < size && 0 <= k < size && PiecesFit(r, size)
    ensures BigLength(Subrange(r, size, j).value) ==
              if j < BigLength(r) % size then BigLength(r) / size + 1 else BigLength(r) / size
    ensures BigLength(Subrange(r, size, j).value) <= BigLength(Subrange(r, size, k).value) + 1
  {
    PieceBounds(r, size, j);
    PieceBounds(r, size, k);
  }

  /** Total length of the pieces of rank below `n`. */
  function PiecesLength(r: Range, size: Int32, n: nat): int
    requires 1 <= size && n <= size
  {
    if n == 0 then 0 else PiecesLength(r, size, n - 1) + BigLength(Subrange(r, size, n - 1).value)
  }

  lemma {:induction false} PiecesLengthIsSumLen(r: Range, size: Int32, n: nat)
    requires 1 <= size && n <= size && PiecesFit(r, size)
    ensures PiecesLength(r, size, n) == Partition.SumLen(BigLength(r), size, n)
  {
    if n > 0 {
      PiecesLengthIsSumLen(r, size, n - 1);
      assert BigLength(Subrange(r, size, n - 1).value) ==
             Partition.PieceLen(BigLength(r), size, n - 1) by {
        PieceBounds(r, size, n - 1);
      }
    }
  }

  /** The lengths of all pieces add up to the length of the range. */
  lemma SubrangesLengthSum(r: Range, size: Int32)
    requires 1 <= size && PiecesFit(r, size)
    ensures PiecesLength(r, size, size as nat) == BigLength(r)
  {
    PiecesLengthIsSumLen(r, size, size as nat);
    Partition.PiecesCoverAll(r.lb, BigLength(r), size);
  }

  /** A piece ends before any later piece starts. */
  lemma PiecesAscend(r: Range, size: Int32, j: Int32, k: Int32)
    requires 1 <= size && PiecesFit(r, size) && 0 <= j < k < size
    ensures Subrange(r, size, j).value.ub < Subrange(r, size, k).value.lb
  {
    var len := BigLength(r);
    PieceBounds(r, size, j);
    PieceBounds(r, size, k);
    Partition.PieceLbStep(r.lb, len, size, j);
    Partition.PieceLbMonotone(r.lb, len, size, j + 1, k);
  }

  /** Every value of the range lies in exactly one piece. */
  lemma SubrangesPartition(r: Range, size: Int32, v: Int32)
    requires 1 <= size && PiecesFit(r, size) && Contains(r, v)
    ensures exists k: int :: 0 <= k < size && Contains(Subrange(r, size, k).value, v)
    ensures forall j: int, k: int ::
              (0 <= j < size && 0 <= k < size &&
               Contains(Subrange(r, size, j).value, v) && Contains(Subrange(r, size, k).value, v)) ==> j == k
  {
    var k: int := 0;
    SubrangesTile(r, size, 0);
    SubrangesTile(r, size, size - 1);
    while Subrange(r, size, k).value.ub < v
      invariant 0 <= k < size
      invariant Subrange(r, size, k).value.lb <= v
      decreases size - k
    {
      SubrangesTile(r, size, k);
      k := k + 1;
    }
    forall j: int, k: int | 0 <= j < k < size
      ensures Subrange(r, size, j).value.ub < Subrange(r, size, k).value.lb
    {
      PiecesAscend(r, size, j, k);
    }
  }

  // ---------------------------------------------------------------------------
  // Overflow of empty trailing pieces

  /** As written, a range that ends at `Integer.MAX_VALUE` and is split into more pieces
      than it has elements gets trailing pieces whose lower bound `ub + 1` wraps to
      `Integer.MIN_VALUE`: instead of an empty range, such a piece is the whole `int`
      range. `Range(MAX_VALUE, MAX_VALUE).subrange(2, 1)` is `MIN_VALUE..MAX_VALUE`. */
  lemma SubrangeWrapsAtMaxValue()
    ensures var r := Range(INT_MAX, INT_MAX);
            BigLength(r) == 1 &&
            Subrange(r, 2, 1) == Ok(Range(INT_MIN, INT_MAX)) &&
            BigLength(Subrange(r, 2, 1).value) == TWO_32 &&
            PiecesLength(r, 2, 2) == TWO_32 + 1
  {
    var r := Range(INT_MAX, INT_MAX);
    assert Partition.PieceLb(r.lb, 1, 2, 1) == INT_MAX + 1;
    Wrap32By(INT_MAX + 1, 1);
    assert Subrange(r, 2, 0) == Ok(r);
  }

  /** `subrange` as evidently intended: an empty piece is returned as the empty range
      `0..-1` instead of a cast of its exact bounds, so no bound can overflow. */
  function SubrangeCorrected(r: Range, size: Int32, rank: Int32): (res: Result<Range, RangeError>)
    ensures res.Err? <==> size < 1 || rank < 0 || rank >= size
  {
    if size < 1 || rank < 0 || rank >= size then Err(IllegalArgument)
    else if size == 1 then Ok(r)
    else
      var len := BigLength(r);
      var lo := Partition.PieceLb(r.lb, len, size, rank);
      var n := Partition.PieceLen(len, size, rank);
      if n == 0 then Ok(EmptyRange())
      else
        Partition.PieceWithin(r.lb, len, size, rank);
        Ok(Range(lo, lo + n - 1))
  }

  /** For every range and every split, the corrected piece holds exactly the values
      `PieceLb .. PieceLb + PieceLen - 1`: the pieces partition the range and their
      lengths add up to its length, with no condition on the bounds. */
  lemma SubrangeCorrectedIsExact(r: Range, size: Int32, rank: Int32, v: Int32)
    requires 2 <= size && 0 <= rank < size
    ensures var len := BigLength(r);
            var lo := Partition.PieceLb(r.lb, len, size, rank);
            var n := Partition.PieceLen(len, size, rank);
            BigLength(SubrangeCorrected(r, size, rank).value) == n &&
            (Contains(SubrangeCorrected(r, size, rank).value, v) <==> lo <= v <= lo + n - 1)
  {
    Partition.PieceWithin(r.lb, BigLength(r), size, rank);
  }

  /** Where no bound overflows, the source's `subrange` and the corrected one agree under
      `equals`; at the overflow they do not. */
  lemma SubrangeCorrectedAgrees(r: Range, size: Int32, rank: Int32)
    requires 1 <= size && 0 <= rank < size
    ensures PiecesFit(r, size) ==>
              Equals(Subrange(r, size, rank).value, SubrangeCorrected(r, size, rank).value)
    ensures !Equals(Subrange(Range(INT_MAX, INT_MAX), 2, 1).value,
                    SubrangeCorrected(Range(INT_MAX, INT_MAX), 2, 1).value)
  {
    if size >= 2 && PiecesFit(r, size) {
      SubrangeIsExactPiece(r, size, rank);
    }
    SubrangeWrapsAtMaxValue();
  }
}
