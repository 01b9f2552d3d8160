/** The curve is hierarchical: dropping the k low bits of every coordinate drops
    the n * k low bits of the Hilbert integer. */
module HilbertNesting {
  import opened Bits
  import opened Hilbert
  import opened HilbertIndex
  import opened HilbertCurve

  /** Every word shifted right by k. */
  function Shifted(X: Point, k: nat): (Y: Point)
    ensures |Y| == |X|
  {
    seq(|X|, i requires 0 <= i < |X| => Shr(X[i], k))
  }

  lemma ShiftedInCube(X: Point, b: nat, k: nat)
    requires InCube(X, b) && k <= b
    ensures InCube(Shifted(X, k), b - k)
  {
    forall i | 0 <= i < |X|
      ensures Shr(X[i], k) < Pow2(b - k)
    {
      ShrBound(X[i], b, k);
    }
  }

  lemma {:induction false} ShrBound(x: nat, b: nat, k: nat)
    requires x < Pow2(b) && k <= b
    ensures Shr(x, k) < Pow2(b - k)
  {
    if k > 0 { ShrBound(x / 2, b - 1, k - 1); }
  }

  // ---- the steps commute with dropping low bits ---------------------------

  lemma ShiftedTwist(X: Point, i: nat, j: nat, k: nat)
    requires i < |X| && k <= j
    ensures Shifted(Twist(X, i, j), k) == Twist(Shifted(X, k), i, j - k)
  {
    BitShr(X[i], k, j - k);
    ShrFlip(X[0], j, k);
    ShrMix(X[0], X[i], j, k);
    ShrMix(X[i], X[0], j, k);
  }

  lemma {:induction false} ShiftedRedoTo(X: Point, i: nat, j: nat, k: nat)
    requires i <= |X| && k <= j
    ensures Shifted(RedoTo(X, i, j), k) == RedoTo(Shifted(X, k), i, j - k)
    decreases i
  {
    if i > 0 {
      ShiftedRedoTo(X, i - 1, j, k);
      ShiftedTwist(RedoTo(X, i - 1, j), i - 1, j, k);
    }
  }

  /** A level below k only touches bits that the shift drops. */
  lemma {:induction false} ShiftDropsLowLevel(X: Point, i: nat, j: nat, k: nat)
    requires i <= |X| && j <= k
    ensures Shifted(RedoTo(X, i, j), k) == Shifted(X, k)
    decreases i
  {
    if i > 0 {
      ShiftDropsLowLevel(X, i - 1, j, k);
      var Y := RedoTo(X, i - 1, j);
      HighBitsKept(Y[0], Y[i - 1], j, k);
      HighBitsKept(Y[i - 1], Y[0], j, k);
      assert Shifted(Twist(Y, i - 1, j), k) == Shifted(Y, k);
    }
  }

  lemma {:induction false} ShiftDropsLowLevels(X: Point, b: nat, k: nat)
    requires b <= k + 1
    ensures Shifted(Redo(X, b), k) == Shifted(X, k)
    decreases b
  {
    if b > 1 {
      ShiftDropsLowLevels(RedoTo(X, |X|, b - 1), b - 1, k);
      ShiftDropsLowLevel(X, |X|, b - 1, k);
    }
  }

  lemma {:induction false} ShiftedRedo(X: Point, b: nat, k: nat)
    requires k < b
    ensures Shifted(Redo(X, b), k) == Redo(Shifted(X, k), b - k)
    decreases b
  {
    if b == k + 1 {
      ShiftDropsLowLevels(X, b, k);
    } else {
      ShiftedRedo(RedoTo(X, |X|, b - 1), b - 1, k);
      ShiftedRedoTo(X, |X|, b - 1, k);
    }
  }

  lemma {:induction false} ShiftedRunning(X: Point, i: nat, k: nat)
    requires i < |X|
    ensures Running(Shifted(X, k), i) == Shr(Running(X, i), k)
  {
    if i > 0 {
      ShiftedRunning(X, i - 1, k);
      ShrXor(X[i], Running(X, i - 1), k);
    }
  }

  lemma {:induction false} ShrPrefixXor(x: nat, k: nat)
    ensures Shr(PrefixXor(x), k) == PrefixXor(Shr(x, k))
  {
    if k > 0 {
      HalfPrefixXor(x);
      ShrPrefixXor(x / 2, k - 1);
    }
  }

  lemma HalfOfShr(x: nat, k: nat)
    ensures Shr(x / 2, k) == Shr(x, k) / 2
  {
    ShrShr(x, 1, k);
    ShrShr(x, k, 1);
    assert Shr(x, 1) == x / 2 && Shr(Shr(x, k), 1) == Shr(x, k) / 2;
  }

  lemma ShiftedGrayEncode(X: Point, k: nat)
    requires |X| >= 1
    ensures Shifted(GrayEncode(X), k) == GrayEncode(Shifted(X, k))
  {
    var r := Running(X, |X| - 1);
    var p := PrefixXor(r);
    var t := p / 2;
    assert PrefixXor(Running(Shifted(X, k), |X| - 1)) / 2 == Shr(t, k) by {
      ShiftedRunning(X, |X| - 1, k);
      ShrPrefixXor(r, k);
      HalfOfShr(p, k);
    }
    forall i | 0 <= i < |X|
      ensures Shifted(Masked(X, t), k)[i] == Masked(Shifted(X, k), Shr(t, k))[i]
    {
      ShiftedRunning(X, i, k);
      ShrXor(Running(X, i), t, k);
    }
  }

  /** Shifting the transposed index of X by k is transposing X shifted by k. */
  lemma TransposedNests(X: Point, b: nat, k: nat)
    requires |X| >= 1 && k < b
    ensures Shifted(Transposed(X, b), k) == Transposed(Shifted(X, k), b - k)
  {
    ShiftedRedo(X, b, k);
    ShiftedGrayEncode(Redo(X, b), k);
  }

  // ---- blocks of indices and subcubes -------------------------------------

  lemma FlatBitOfShifted(X: Point, p: nat, k: nat)
    requires |X| >= 1
    ensures FlatBit(Shifted(X, k), p) == FlatBit(X, p + Size(|X|, k))
  {
    var n := |X|;
    var level, axis := LevelOf(n, p), AxisOf(n, p);
    PositionOf(n, p);
    assert Position(n, level + k, axis) == p + Size(n, k) by {
      assert (level + k) * n == level * n + n * k;
    }
    FlatPosition(n, level + k, axis);
    BitShr(X[axis], k, level);
  }

  lemma {:induction false} IndexOfShifted(X: Point, p: nat, q: nat, k: nat)
    requires |X| >= 1
    ensures IndexFrom(Shifted(X, k), p, q) == IndexFrom(X, p + Size(|X|, k), q + Size(|X|, k))
    decreases q - p
  {
    if p < q {
      IndexOfShifted(X, p + 1, q, k);
      FlatBitOfShifted(X, p, k);
    }
  }

  lemma {:induction false} ShrIndex(X: Point, p: nat, q: nat, m: nat)
    requires |X| >= 1 && p + m <= q
    ensures Shr(IndexFrom(X, p, q), m) == IndexFrom(X, p + m, q)
    decreases m
  {
    if m > 0 { ShrIndex(X, p + 1, q, m - 1); }
  }

  lemma SizeSplits(n: nat, b: nat, k: nat)
    requires k <= b
    ensures Size(n, b) == Size(n, b - k) + Size(n, k)
  {
    assert n * b == n * (b - k) + n * k;
  }

  lemma IndexNests(T: Point, b: nat, k: nat)
    requires |T| >= 1 && k <= b
    ensures Shr(Index(T, b), Size(|T|, k)) == Index(Shifted(T, k), b - k)
  {
    SizeSplits(|T|, b, k);
    IndexOfShifted(T, 0, Size(|T|, b - k), k);
    ShrIndex(T, 0, Size(|T|, b), Size(|T|, k));
  }

  /** Dropping n * k low bits of the Hilbert integer of X gives the Hilbert
      integer of the subcube of side 2^k that contains X. */
  lemma HilbertIntegerNests(X: Point, b: nat, k: nat)
    requires |X| >= 1 && k < b
    ensures Shr(HilbertInteger(X, b), Size(|X|, k)) == HilbertInteger(Shifted(X, k), b - k)
  {
    TransposedNests(X, b, k);
    IndexNests(Transposed(X, b), b, k);
  }

  lemma IntegersAreUnique(X: Point, Y: Point, b: nat)
    requires InCube(X, b) && InCube(Y, b) && |X| == |Y|
    ensures HilbertInteger(X, b) == HilbertInteger(Y, b) <==> X == Y
  {
    PointOfInteger(X, b);
    PointOfInteger(Y, b);
  }

  /** The points lie in the same aligned subcube of side d. */
  predicate SameSubcube(X: Point, Y: Point, d: nat)
    requires |X| == |Y| && d > 0
  {
    forall i | 0 <= i < |X| :: X[i] / d == Y[i] / d
  }

  lemma ShiftedIsDivision(X: Point, Y: Point, k: nat)
    requires |X| == |Y|
    ensures Shifted(X, k) == Shifted(Y, k) <==> SameSubcube(X, Y, Pow2(k))
  {
    forall i | 0 <= i < |X|
      ensures Shifted(X, k)[i] == X[i] / Pow2(k) && Shifted(Y, k)[i] == Y[i] / Pow2(k)
    {
      ShrIsDivision(X[i], k);
      ShrIsDivision(Y[i], k);
    }
  }

  /** Two points have indices in the same aligned block of 2^(n*k) exactly when
      they lie in the same aligned subcube of side 2^k. */
  lemma BlocksAreSubcubes(X: Point, Y: Point, b: nat, k: nat)
    requires InCube(X, b) && InCube(Y, b) && |X| == |Y| && k < b
    ensures HilbertInteger(X, b) / Pow2(Size(|X|, k)) == HilbertInteger(Y, b) / Pow2(Size(|X|, k))
       <==> SameSubcube(X, Y, Pow2(k))
  {
    ShrIsDivision(HilbertInteger(X, b), Size(|X|, k));
    ShrIsDivision(HilbertInteger(Y, b), Size(|X|, k));
    ShiftedIsDivision(X, Y, k);
    HilbertIntegerNests(X, b, k);
    HilbertIntegerNests(Y, b, k);
    ShiftedInCube(X, b, k);
    ShiftedInCube(Y, b, k);
    IntegersAreUnique(Shifted(X, k), Shifted(Y, k), b - k);
  }

  // ---- the ends of the curve ----------------------------------------------

  lemma AllZero(X: Point, b: nat)
    requires |X| >= 1 && forall i | 0 <= i < |X| :: X[i] == 0
    ensures Undo(X, b) == X
  {
    forall i | 0 <= i < |X|
      ensures Low(X[i], b) == 0
    {
      MixFacts(0, 0, b);
    }
    UndoOfZeroLow(X, b);
  }

  /** The curve starts in the origin. */
  lemma CurveStartsAtOrigin(b: nat, n: nat)
    requires n >= 1
    ensures PointAt(0, b, n) == seq(n, _ => 0)
  {
    var X := Spread(0, b, n);
    forall i | 0 <= i < n
      ensures X[i] == 0
    {
      StridedOfZero(n, n - 1 - i, b);
    }
    forall i | 0 <= i < n
      ensures GrayDecode(X)[i] == 0
    {
      XorZero(0);
    }
    AllZero(GrayDecode(X), b);
  }

  lemma {:induction false} StridedOfZero(n: nat, p: nat, b: nat)
    ensures Strided(0, n, p, b) == 0
    decreases b
  {
    if b > 0 {
      BitOfZero(p);
      StridedOfZero(n, p + n, b - 1);
    }
  }

  lemma {:induction false} BitOfOnes(m: nat, p: nat)
    ensures Bit(Pow2(m) - 1, p) == (p < m)
  {
    if m == 0 {
      BitOfZero(p);
    } else {
      assert (Pow2(m) - 1) / 2 == Pow2(m - 1) - 1;
      if p > 0 { BitOfOnes(m - 1, p - 1); }
    }
  }

  lemma {:induction false} LowOfSmall(x: nat, b: nat)
    requires x < Pow2(b)
    ensures Low(x, b) == x
  {
    if b > 0 { LowOfSmall(x / 2, b - 1); }
  }

  lemma LastIndexBit(b: nat, n: nat, p: nat)
    requires n >= 1
    ensures FlatBit(Spread(Pow2(Size(n, b)) - 1, b, n), p) == (p < Size(n, b))
  {
    var h := Pow2(Size(n, b)) - 1;
    if p < Size(n, b) {
      SpreadBit(h, b, n, p);
      BitOfOnes(Size(n, b), p);
    } else {
      SpreadInCube(h, b, n);
      TopBits(Spread(h, b, n), b, p);
    }
  }

  lemma GrayOfOnes(X: Point, m: nat, p: nat)
    requires |X| >= 1 && FlatBit(X, p) == (p < m) && FlatBit(X, p + 1) == (p + 1 < m)
    ensures FlatBit(GrayDecode(X), p) == (p + 1 == m)
  {
    GrayBit(X, p);
  }

  lemma GrayOfLastAt(b: nat, n: nat, p: nat)
    requires n >= 1
    ensures FlatBit(GrayDecode(Spread(Pow2(Size(n, b)) - 1, b, n)), p) == (p + 1 == Size(n, b))
  {
    LastIndexBit(b, n, p);
    LastIndexBit(b, n, p + 1);
    GrayOfOnes(Spread(Pow2(Size(n, b)) - 1, b, n), Size(n, b), p);
  }

  /** The Gray code of the last index has a single bit: the top one of axis 0. */
  lemma GrayOfLast(b: nat, n: nat, j: nat, a: nat)
    requires n >= 1 && b >= 1 && a < n && j < b
    ensures Bit(GrayDecode(Spread(Pow2(Size(n, b)) - 1, b, n))[a], j) == (j == b - 1 && a == 0)
  {
    LastPosition(n, b, j, a);
    GrayOfLastAt(b, n, Position(n, j, a));
    FlatBitAt(GrayDecode(Spread(Pow2(Size(n, b)) - 1, b, n)), j, a);
  }

  lemma LastPosition(n: nat, b: nat, j: nat, a: nat)
    requires a < n
    ensures Position(n, j, a) + 1 == Size(n, b) <==> j + 1 == b && a == 0
  {
    PositionOrder(n, j, a, b, n - 1);
    assert Position(n, b, n - 1) == n * b;
  }

  lemma TopBitOnly(x: nat, b: nat, top: bool)
    requires x < Pow2(b) && b >= 1 && forall j | 0 <= j < b :: Bit(x, j) == (j == b - 1 && top)
    ensures Low(x, b - 1) == 0 && (!top ==> x == 0)
  {
    LowFromBits(x, b - 1);
    if !top {
      LowFromBits(x, b);
      LowOfSmall(x, b);
    }
  }

  lemma UndoOfLast(G: Point, b: nat)
    requires InCube(G, b) && b >= 1
    requires forall j, a | 0 <= j < b && 0 <= a < |G| :: Bit(G[a], j) == (j == b - 1 && a == 0)
    ensures Undo(G, b)[0] == Pow2(b) - 1
    ensures forall a | 1 <= a < |G| :: Undo(G, b)[a] == 0
  {
    forall a | 0 <= a < |G|
      ensures Low(G[a], b - 1) == 0
      ensures a > 0 ==> G[a] == 0
    {
      TopBitOnly(G[a], b, a == 0);
    }
    UndoOfTopBit(G, b);
    FlipBound(G[0], b - 1, b);
    LowOfSmall(Flip(G[0], b - 1), b);
  }

  /** The curve ends in the far corner of axis 0. */
  lemma CurveEndsAtCorner(b: nat, n: nat, axis: nat)
    requires axis < n && b >= 1
    ensures PointAt(Pow2(Size(n, b)) - 1, b, n)[axis] == if axis == 0 then Pow2(b) - 1 else 0
  {
    var X := Spread(Pow2(Size(n, b)) - 1, b, n);
    SpreadInCube(Pow2(Size(n, b)) - 1, b, n);
    GrayDecodeInCube(X, b);
    forall j, a | 0 <= j < b && 0 <= a < n
      ensures Bit(GrayDecode(X)[a], j) == (j == b - 1 && a == 0)
    {
      GrayOfLast(b, n, j, a);
    }
    UndoOfLast(GrayDecode(X), b);
  }
}
