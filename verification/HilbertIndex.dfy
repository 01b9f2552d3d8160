/** The Hilbert integer: the bits of a transposed index interleaved into one
    number, as the sample program of skilling.c prints it for 5 bits and 3
    dimensions, here for any b and n. */
module HilbertIndex {
  import opened Bits
  import opened Hilbert

  /** Number of bits of a Hilbert integer, and the bit of which word each is. */
  function Size(n: nat, b: nat): nat {
    n * b
  }

  function LevelOf(n: nat, p: nat): nat
    requires n >= 1
  {
    p / n
  }

  function AxisOf(n: nat, p: nat): (axis: nat)
    requires n >= 1
    ensures axis < n
  {
    n - 1 - p % n
  }

  /** Bit p of the Hilbert integer of the transposed index X. */
  predicate FlatBit(X: Point, p: nat)
    requires |X| >= 1
  {
    Bit(X[AxisOf(|X|, p)], LevelOf(|X|, p))
  }

  function IndexFrom(X: Point, p: nat, q: nat): nat
    requires |X| >= 1
    decreases q - p
  {
    if p >= q then 0 else Num(FlatBit(X, p)) + 2 * IndexFrom(X, p + 1, q)
  }

  /** The Hilbert integer of a transposed index. */
  function Index(X: Point, b: nat): nat
    requires |X| >= 1
  {
    IndexFrom(X, 0, Size(|X|, b))
  }

  /** Bits p, p+n, p+2n, ... of h, b of them, as a word. */
  function Strided(h: nat, n: nat, p: nat, b: nat): nat
    decreases b
  {
    if b == 0 then 0 else Num(Bit(h, p)) + 2 * Strided(h, n, p + n, b - 1)
  }

  /** The transposed index whose Hilbert integer is h. */
  function Spread(h: nat, b: nat, n: nat): (X: Point)
    ensures |X| == n
  {
    seq(n, i requires 0 <= i < n => Strided(h, n, n - 1 - i, b))
  }

  /** The position of bit (level, axis) in the Hilbert integer. */
  function Position(n: nat, level: nat, axis: nat): nat
    requires axis < n
  {
    level * n + (n - 1 - axis)
  }

  lemma FlatPosition(n: nat, level: nat, axis: nat)
    requires axis < n
    ensures LevelOf(n, Position(n, level, axis)) == level
    ensures AxisOf(n, Position(n, level, axis)) == axis
  {
    var p := Position(n, level, axis);
    assert (level + 1) * n == level * n + n;
    DivisionIsUnique(p, n, level);
    assert p == p / n * n + p % n;
  }

  lemma PositionOf(n: nat, p: nat)
    requires n >= 1
    ensures Position(n, LevelOf(n, p), AxisOf(n, p)) == p
  {
    assert p == p / n * n + p % n;
  }

  lemma FlatBitAt(X: Point, level: nat, axis: nat)
    requires axis < |X|
    ensures FlatBit(X, Position(|X|, level, axis)) == Bit(X[axis], level)
  {
    FlatPosition(|X|, level, axis);
  }

  /** Moving up one position moves to the previous axis, or to the next level. */
  lemma NextPosition(n: nat, p: nat)
    requires n >= 1
    ensures AxisOf(n, p) > 0 ==> LevelOf(n, p + 1) == LevelOf(n, p) && AxisOf(n, p + 1) == AxisOf(n, p) - 1
    ensures AxisOf(n, p) == 0 ==> LevelOf(n, p + 1) == LevelOf(n, p) + 1 && AxisOf(n, p + 1) == n - 1
  {
    var level, axis := LevelOf(n, p), AxisOf(n, p);
    PositionOf(n, p);
    if axis > 0 {
      FlatPosition(n, level, axis - 1);
    } else {
      assert Position(n, level + 1, n - 1) == p + 1;
      FlatPosition(n, level + 1, n - 1);
    }
  }

  // ---- Index and Spread are inverse ---------------------------------------

  lemma {:induction false} StridedBit(h: nat, n: nat, p: nat, b: nat, j: nat)
    ensures Bit(Strided(h, n, p, b), j) == (j < b && Bit(h, p + j * n))
    decreases b
  {
    if b == 0 {
      BitOfZero(j);
    } else if j > 0 {
      StridedBit(h, n, p + n, b - 1, j - 1);
      assert p + n + (j - 1) * n == p + j * n;
    }
  }

  lemma {:induction false} StridedBound(h: nat, n: nat, p: nat, b: nat)
    ensures Strided(h, n, p, b) < Pow2(b)
    decreases b
  {
    if b > 0 { StridedBound(h, n, p + n, b - 1); }
  }

  lemma SpreadInCube(h: nat, b: nat, n: nat)
    requires n >= 1
    ensures InCube(Spread(h, b, n), b)
  {
    forall i | 0 <= i < n
      ensures Spread(h, b, n)[i] < Pow2(b)
    {
      StridedBound(h, n, n - 1 - i, b);
    }
  }

  lemma PositionInRange(n: nat, b: nat, p: nat)
    requires n >= 1
    ensures LevelOf(n, p) < b <==> p < Size(n, b)
  {
    var level := LevelOf(n, p);
    MultiplesAreOrdered(b, level, n);
    MultiplesAreOrdered(level + 1, b, n);
    assert (level + 1) * n == level * n + n;
    assert level * n + p % n == p;
  }

  lemma SpreadBitAt(h: nat, b: nat, n: nat, level: nat, axis: nat)
    requires axis < n && level < b
    ensures Bit(Spread(h, b, n)[axis], level) == Bit(h, Position(n, level, axis))
  {
    StridedBit(h, n, n - 1 - axis, b, level);
  }

  lemma SpreadBit(h: nat, b: nat, n: nat, p: nat)
    requires n >= 1 && p < Size(n, b)
    ensures FlatBit(Spread(h, b, n), p) == Bit(h, p)
  {
    PositionInRange(n, b, p);
    SpreadBitAt(h, b, n, LevelOf(n, p), AxisOf(n, p));
    PositionOf(n, p);
  }

  lemma {:induction false} IndexFromSpread(h: nat, b: nat, n: nat, p: nat)
    requires n >= 1 && p <= Size(n, b) && h < Pow2(Size(n, b))
    ensures IndexFrom(Spread(h, b, n), p, Size(n, b)) == Shr(h, p)
    decreases Size(n, b) - p
  {
    if p == Size(n, b) {
      ShrZero(h, p);
    } else {
      IndexFromSpread(h, b, n, p + 1);
      SpreadBit(h, b, n, p);
      BitIsShiftedParity(h, p);
      ShrShr(h, p, 1);
      assert Shr(Shr(h, p), 1) == Shr(h, p) / 2;
    }
  }

  lemma IndexOfSpread(h: nat, b: nat, n: nat)
    requires n >= 1 && h < Pow2(Size(n, b))
    ensures Index(Spread(h, b, n), b) == h
  {
    IndexFromSpread(h, b, n, 0);
  }

  lemma {:induction false} IndexFromBit(X: Point, p: nat, q: nat, k: nat)
    requires |X| >= 1 && p + k < q
    ensures Bit(IndexFrom(X, p, q), k) == FlatBit(X, p + k)
    decreases k
  {
    if k > 0 { IndexFromBit(X, p + 1, q, k - 1); }
  }

  lemma {:induction false} IndexFromBound(X: Point, p: nat, q: nat)
    requires |X| >= 1 && p <= q
    ensures IndexFrom(X, p, q) < Pow2(q - p)
    decreases q - p
  {
    if p < q { IndexFromBound(X, p + 1, q); }
  }

  lemma IndexBound(X: Point, b: nat)
    requires |X| >= 1
    ensures Index(X, b) < Pow2(Size(|X|, b))
  {
    IndexFromBound(X, 0, Size(|X|, b));
  }

  lemma BitOfIndex(X: Point, b: nat, level: nat, axis: nat)
    requires axis < |X| && level < b
    ensures Bit(Index(X, b), Position(|X|, level, axis)) == Bit(X[axis], level)
  {
    FlatPosition(|X|, level, axis);
    PositionInRange(|X|, b, Position(|X|, level, axis));
    IndexFromBit(X, 0, Size(|X|, b), Position(|X|, level, axis));
  }

  /** The bits of the interleaved integer, from the least significant one on: bit 0 of
      the words n-1, ..., 0, then bit 1 of all of them, and so on. */
  lemma InterleavedBit(X: Point, b: nat, level: nat, axis: nat)
    requires axis < |X| && level < b
    ensures Bit(Index(X, b), level * |X| + (|X| - 1 - axis)) == Bit(X[axis], level)
  {
    BitOfIndex(X, b, level, axis);
  }

  lemma SpreadOfIndex(X: Point, b: nat)
    requires InCube(X, b)
    ensures Spread(Index(X, b), b, |X|) == X
  {
    var n, h := |X|, Index(X, b);
    SpreadInCube(h, b, n);
    forall i | 0 <= i < n
      ensures Spread(h, b, n)[i] == X[i]
    {
      forall j | 0 <= j < b
        ensures Bit(Spread(h, b, n)[i], j) == Bit(X[i], j)
      {
        SpreadBitAt(h, b, n, j, i);
        BitOfIndex(X, b, j, i);
      }
      SameBits(Spread(h, b, n)[i], X[i], b);
    }
  }

  // ---- the printed number -------------------------------------------------

  /** For 5 bits and 3 dimensions, Index is the sum of the sample program. */
  lemma SampleProgramIndex(X: Point)
    requires |X| == 3
    ensures Index(X, 5) ==
            (Shr(X[2], 0) % 2) *    1 + (Shr(X[1], 0) % 2) *    2 + (Shr(X[0], 0) % 2) *     4 +
            (Shr(X[2], 1) % 2) *    8 + (Shr(X[1], 1) % 2) *   16 + (Shr(X[0], 1) % 2) *    32 +
            (Shr(X[2], 2) % 2) *   64 + (Shr(X[1], 2) % 2) *  128 + (Shr(X[0], 2) % 2) *   256 +
            (Shr(X[2], 3) % 2) *  512 + (Shr(X[1], 3) % 2) * 1024 + (Shr(X[0], 3) % 2) *  2048 +
            (Shr(X[2], 4) % 2) * 4096 + (Shr(X[1], 4) % 2) * 8192 + (Shr(X[0], 4) % 2) * 16384
  {
    SampleLevel(X, 0);
    SampleLevel(X, 1);
    SampleLevel(X, 2);
    SampleLevel(X, 3);
    SampleLevel(X, 4);
  }

  lemma SampleLevel(X: Point, level: nat)
    requires |X| == 3 && level < 5
    ensures IndexFrom(X, 3 * level, 15) ==
            Shr(X[2], level) % 2 + Shr(X[1], level) % 2 * 2 + Shr(X[0], level) % 2 * 4
            + 8 * IndexFrom(X, 3 * level + 3, 15)
  {
    forall axis | 0 <= axis < 3
      ensures Num(FlatBit(X, 3 * level + (2 - axis))) == Shr(X[axis], level) % 2
    {
      BitIsShiftedParity(X[axis], level);
      FlatBitAt(X, level, axis);
    }
    var p := 3 * level;
    assert IndexFrom(X, p, 15) == Num(FlatBit(X, p + 0)) + 2 * IndexFrom(X, p + 1, 15);
    assert IndexFrom(X, p + 1, 15) == Num(FlatBit(X, p + 1)) + 2 * IndexFrom(X, p + 2, 15);
    assert IndexFrom(X, p + 2, 15) == Num(FlatBit(X, p + 2)) + 2 * IndexFrom(X, p + 3, 15);
  }
}
