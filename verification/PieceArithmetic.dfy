/** Part counts and piece lengths of a shared file. */
module PieceArithmetic {
  import opened Basics

  const ED2K_PART_SIZE: int := 9_728_000

  /** `//` with a positive divisor rounds down, as Dafny's `/` does. */
  function PieceCount(size: int, pieceSize: nat): int {
    if size != 0 && pieceSize != 0 then (size + pieceSize - 1) / pieceSize else 0
  }

  function ExpectedPieceLength(size: int, pieceSize: int, index: int): int {
    var start := index * pieceSize;
    Max(0, Min(start + pieceSize, size) - start)
  }

  function ExpectedMd4HashCount(size: int): int {
    if size == 0 then 0
    else
      var wholeParts := size / ED2K_PART_SIZE;
      wholeParts + if wholeParts > 0 then 1 else 0
  }

  function ExpectedAichHashCount(size: int): int {
    if size <= ED2K_PART_SIZE then 0 else (size + ED2K_PART_SIZE - 1) / ED2K_PART_SIZE
  }

  /** The bytes covered by the pieces `0 .. count`. */
  function PieceLengthSum(size: int, pieceSize: int, count: nat): int {
    if count == 0 then 0
    else PieceLengthSum(size, pieceSize, count - 1) + ExpectedPieceLength(size, pieceSize, count - 1)
  }

  /** The last piece starts inside the file and ends at or after its end. */
  lemma PieceCountBounds(size: int, pieceSize: int)
    requires size > 0 && pieceSize > 0
    ensures var n := PieceCount(size, pieceSize);
            n >= 1 && (n - 1) * pieceSize < size <= n * pieceSize
  {
    var n := (size + pieceSize - 1) / pieceSize;
    assert size + pieceSize - 1 == n * pieceSize + (size + pieceSize - 1) % pieceSize;
    assert (n - 1) * pieceSize == n * pieceSize - pieceSize;
    if n < 1 {
      NonPositiveTimes(n, pieceSize);
    }
  }

  lemma NonPositiveTimes(a: int, b: int)
    requires a <= 0 <= b
    ensures a * b <= 0
  {
  }

  lemma {:induction false} PieceLengthSumIs(size: int, pieceSize: int, count: nat)
    requires size > 0 && pieceSize > 0 && count <= PieceCount(size, pieceSize)
    ensures PieceLengthSum(size, pieceSize, count) == Min(count * pieceSize, size)
  {
    if count > 0 {
      PieceLengthSumIs(size, pieceSize, count - 1);
      PieceCountBounds(size, pieceSize);
      TimesMonotone(count - 1, PieceCount(size, pieceSize) - 1, pieceSize);
      assert count * pieceSize == (count - 1) * pieceSize + pieceSize;
    }
  }

  /** The pieces tile the file: each is nonempty and at most one piece long, and together they are the file. */
  lemma PiecesTileFile(size: int, pieceSize: int)
    requires size > 0 && pieceSize > 0
    ensures forall i :: 0 <= i < PieceCount(size, pieceSize) ==>
              1 <= ExpectedPieceLength(size, pieceSize, i) <= pieceSize
    ensures PieceCount(size, pieceSize) >= 1
    ensures PieceLengthSum(size, pieceSize, PieceCount(size, pieceSize)) == size
  {
    var n := PieceCount(size, pieceSize);
    PieceCountBounds(size, pieceSize);
    PieceLengthSumIs(size, pieceSize, n);
    forall i | 0 <= i < n
      ensures 1 <= ExpectedPieceLength(size, pieceSize, i) <= pieceSize
    {
      TimesMonotone(i, n - 1, pieceSize);
    }
  }

  /** How many MD4 and AICH part hashes a file carries, against its number of parts. */
  lemma HashCountsAgainstParts(size: int)
    requires size > 0
    ensures var parts := PieceCount(size, ED2K_PART_SIZE);
            && (size < ED2K_PART_SIZE ==> ExpectedMd4HashCount(size) == 0 && parts == 1)
            && (size >= ED2K_PART_SIZE && size % ED2K_PART_SIZE == 0 ==> ExpectedMd4HashCount(size) == parts + 1)
            && (size > ED2K_PART_SIZE && size % ED2K_PART_SIZE != 0 ==> ExpectedMd4HashCount(size) == parts)
            && ExpectedAichHashCount(size) == (if size > ED2K_PART_SIZE then parts else 0)
  {
    var q, r := size / ED2K_PART_SIZE, size % ED2K_PART_SIZE;
    assert size == q * ED2K_PART_SIZE + r;
    assert (size + ED2K_PART_SIZE - 1) / ED2K_PART_SIZE == if r == 0 then q else q + 1;
  }
}
