/** The defining property of the Hilbert curve: consecutive indices are
    neighbouring points.  The Gray codes of h and h+1 differ in one bit, the
    pivot, and both read 1, 0, ..., 0 below it.  Up to the pivot's level the two
    runs of Undo agree; the pivot's step separates them by one unit along its
    axis; the levels above move both by the same isometry. */
module HilbertCurve {
  import opened Bits
  import opened Hilbert
  import opened HilbertIndex

  /** p and q differ along one axis only, and there by exactly one. */
  ghost predicate Neighbours(p: Point, q: Point) {
    exists a :: NeighboursAlong(p, q, a)
  }

  ghost predicate NeighboursAlong(p: Point, q: Point, a: nat) {
    && |p| == |q| && a < |p|
    && (forall c | 0 <= c < |p| && c != a :: p[c] == q[c])
    && (p[a] == q[a] + 1 || q[a] == p[a] + 1)
  }

  /** Neighbours whose difference is confined to the k low bits. */
  ghost predicate NeighboursBelow(p: Point, q: Point, a: nat, k: nat) {
    NeighboursAlong(p, q, a) && Shr(p[a], k) == Shr(q[a], k)
  }

  // ---- the levels above the pivot are isometries --------------------------

  /** A step at level k carries neighbours in the low subcube to neighbours. */
  lemma TwistKeepsNeighbours(p: Point, q: Point, a: nat, i: nat, k: nat) returns (c: nat)
    requires NeighboursBelow(p, q, a, k) && i < |p|
    ensures NeighboursBelow(Twist(p, i, k), Twist(q, i, k), c, k)
  {
    BitIsShiftedParity(p[i], k);
    BitIsShiftedParity(q[i], k);
    if Bit(p[i], k) {
      c := a;
      if a == 0 {
        FlipDifference(p[0], q[0], k);
        FlipFacts(p[0], k);
        FlipFacts(q[0], k);
      }
    } else if i == 0 {
      MixFacts(p[0], p[0], k);
      MixFacts(q[0], q[0], k);
      c := a;
    } else {
      MixFacts(p[0], p[i], k);
      MixFacts(q[0], q[i], k);
      MixFacts(p[i], p[0], k);
      MixFacts(q[i], q[0], k);
      if a == 0 {
        MixDifference(p[0], q[0], p[i], k);
        c := i;
      } else if a == i {
        MixDifference(p[i], q[i], p[0], k);
        c := 0;
      } else {
        c := a;
      }
    }
  }

  lemma {:induction false} LevelKeepsNeighbours(p: Point, q: Point, a: nat, i: nat, k: nat) returns (c: nat)
    requires NeighboursBelow(p, q, a, k) && i <= |p|
    ensures NeighboursBelow(UndoFrom(p, i, k), UndoFrom(q, i, k), c, k)
    decreases |p| - i
  {
    if i == |p| {
      c := a;
    } else {
      c := LevelKeepsNeighbours(p, q, a, i + 1, k);
      c := TwistKeepsNeighbours(UndoFrom(p, i + 1, k), UndoFrom(q, i + 1, k), c, i, k);
    }
  }

  /** Neighbours after the levels below j stay neighbours after all of them. */
  lemma {:induction false} UndoKeepsNeighbours(G: Point, K: Point, a: nat, j: nat, b: nat) returns (c: nat)
    requires 1 <= j <= b
    requires NeighboursBelow(Undo(G, j), Undo(K, j), a, j)
    ensures NeighboursBelow(Undo(G, b), Undo(K, b), c, b)
  {
    if j == b {
      c := a;
    } else {
      c := UndoKeepsNeighbours(G, K, a, j, b - 1);
      var p, q := Undo(G, b - 1), Undo(K, b - 1);
      c := LevelKeepsNeighbours(p, q, c, 0, b - 1);
      p, q := UndoFrom(p, 0, b - 1), UndoFrom(q, 0, b - 1);
      ShrShr(p[c], b - 1, 1);
      ShrShr(q[c], b - 1, 1);
    }
  }

  // ---- the levels below the pivot -----------------------------------------

  /** The k low bits of x. */
  function Low(x: nat, k: nat): nat {
    Mix(0, x, k)
  }

  /** The k low bits are v on axis 0 and zero on every other axis. */
  predicate LowCorner(X: Point, k: nat, v: nat) {
    forall a | 0 <= a < |X| :: Low(X[a], k) == if a == 0 then v else 0
  }

  lemma {:induction false} LowIsPrefix(x: nat, j: nat, k: nat)
    requires j <= k && Low(x, k) == 0
    ensures Low(x, j) == 0
  {
    if j > 0 { LowIsPrefix(x / 2, j - 1, k - 1); }
  }

  lemma {:induction false} LowBit(x: nat, j: nat, k: nat)
    requires j < k && Low(x, k) == 0
    ensures !Bit(x, j)
  {
    if j > 0 { LowBit(x / 2, j - 1, k - 1); }
  }

  lemma {:induction false} LowFromBits(x: nat, k: nat)
    requires forall j | 0 <= j < k :: !Bit(x, j)
    ensures Low(x, k) == 0
  {
    if k > 0 {
      forall j | 0 <= j < k - 1
        ensures !Bit(x / 2, j)
      {
        assert !Bit(x, j + 1);
      }
      LowFromBits(x / 2, k - 1);
      assert !Bit(x, 0);
    }
  }

  lemma {:induction false} MixSameLow(x: nat, y: nat, k: nat)
    requires Low(x, k) == Low(y, k)
    ensures Mix(x, y, k) == x
  {
    if k > 0 { MixSameLow(x / 2, y / 2, k - 1); }
  }

  /** Exchanging equal low bits does nothing. */
  lemma TwistOfEqualLow(X: Point, i: nat, k: nat)
    requires i < |X| && !Bit(X[i], k) && Low(X[0], k) == Low(X[i], k)
    ensures Twist(X, i, k) == X
  {
    MixSameLow(X[0], X[i], k);
    MixSameLow(X[i], X[0], k);
  }

  /** A level leaves a point alone from axis i on, if it controls nothing there. */
  lemma {:induction false} IdleFrom(X: Point, i: nat, k: nat)
    requires i <= |X| && LowCorner(X, k, 0)
    requires forall a | i <= a < |X| :: !Bit(X[a], k)
    ensures UndoFrom(X, i, k) == X
    decreases |X| - i
  {
    if i < |X| {
      IdleFrom(X, i + 1, k);
      TwistOfEqualLow(X, i, k);
    }
  }

  lemma LowCornerPrefix(X: Point, j: nat, k: nat)
    requires j <= k && LowCorner(X, k, 0)
    ensures LowCorner(X, j, 0)
  {
    forall a | 0 <= a < |X|
      ensures Low(X[a], j) == 0
    {
      LowIsPrefix(X[a], j, k);
    }
  }

  /** The levels below k leave a point alone whose k low bits are all zero. */
  lemma {:induction false} UndoOfZeroLow(X: Point, k: nat)
    requires LowCorner(X, k, 0)
    ensures Undo(X, k) == X
  {
    if k > 1 {
      LowCornerPrefix(X, k - 1, k);
      UndoOfZeroLow(X, k - 1);
      forall a | 0 <= a < |X|
        ensures !Bit(X[a], k - 1)
      {
        LowBit(X[a], k - 1, k);
      }
      IdleFrom(X, 0, k - 1);
    }
  }

  lemma {:induction false} LowOnes(x: nat, k: nat)
    requires Low(x, k) == 0
    ensures Low(Flip(x, k), k) == Pow2(k) - 1
  {
    if k > 0 { LowOnes(x / 2, k - 1); }
  }

  lemma {:induction false} LowOnesAbove(x: nat, k: nat)
    requires Low(x, k) == 0 && Bit(x, k)
    ensures Low(Flip(x, k), k + 1) == Pow2(k + 1) - 1
  {
    if k > 0 {
      LowOnesAbove(x / 2, k - 1);
    } else {
      assert Low(x, 1) == x % 2 + 2 * Mix(0, x / 2, 0);
    }
  }

  /** If only the top bit of axis 0 is set below level k, the levels below k
      end in the far corner of axis 0. */
  lemma UndoOfTopBit(X: Point, k: nat)
    requires |X| >= 1 && k >= 1
    requires LowCorner(X, k - 1, 0)
    requires forall a | 0 <= a < |X| :: Bit(X[a], k - 1) == (a == 0)
    ensures Undo(X, k) == X[0 := Flip(X[0], k - 1)]
    ensures Low(Flip(X[0], k - 1), k) == Pow2(k) - 1
  {
    LowOnesAbove(X[0], k - 1);
    if k > 1 {
      UndoOfZeroLow(X, k - 1);
      IdleFrom(X, 1, k - 1);
    }
  }

  // ---- the pivot's level --------------------------------------------------

  /** Below equal high parts, 0 1...1 is followed by 1 0...0. */
  lemma {:induction false} CarryByOne(x: nat, y: nat, k: nat)
    requires Shr(x, k + 1) == Shr(y, k + 1) && !Bit(x, k) && Bit(y, k)
    requires Low(x, k) == Pow2(k) - 1 && Low(y, k) == 0
    ensures y == x + 1
  {
    if k > 0 { CarryByOne(x / 2, y / 2, k - 1); }
  }

  lemma {:induction false} LowOfMixed(x: nat, y: nat, k: nat)
    ensures Low(Mix(x, y, k), k) == Low(y, k)
  {
    if k > 0 {
      LowOfMixed(x / 2, y / 2, k - 1);
      MixHalves(x, y, k);
    }
  }

  lemma {:induction false} LowOfFlipped(x: nat, k: nat)
    requires Low(x, k) == Pow2(k) - 1
    ensures Low(Flip(x, k), k) == 0
  {
    if k > 0 { LowOfFlipped(x / 2, k - 1); }
  }

  lemma {:induction false} MixOfFlipped(x: nat, k: nat)
    ensures Mix(x, Flip(x, k), k) == Flip(x, k)
  {
    if k > 0 { MixOfFlipped(x / 2, k - 1); }
  }

  lemma {:induction false} MixTakesLow(x: nat, y: nat, z: nat, k: nat)
    requires Low(y, k) == Low(z, k)
    ensures Mix(x, y, k) == Mix(x, z, k)
  {
    if k > 0 { MixTakesLow(x / 2, y / 2, z / 2, k - 1); }
  }

  /** The step at the pivot's axis i: S and T are in the far corner of axis 0
      and differ only in bit k of axis i. */
  lemma PivotStep(S: Point, T: Point, i: nat, k: nat)
    requires |S| == |T| && i < |S|
    requires LowCorner(S, k, Pow2(k) - 1) && LowCorner(T, k, Pow2(k) - 1)
    requires forall c | 0 <= c < |S| && c != i :: S[c] == T[c]
    requires !Bit(S[i], k) && Bit(T[i], k) && Shr(S[i], k + 1) == Shr(T[i], k + 1)
    ensures NeighboursBelow(Twist(S, i, k), Twist(T, i, k), i, k + 1)
  {
    HighBitsKept(S[i], S[0], k, k);
    HighBitsKept(S[i], S[0], k, k + 1);
    HighBitsKept(T[0], T[i], k, k);
    HighBitsKept(T[0], T[i], k, k + 1);
    LowOfFlipped(T[0], k);
    if i == 0 {
      MixFacts(S[0], S[0], k);
      CarryByOne(S[0], Flip(T[0], k), k);
    } else {
      MixOfFlipped(S[0], k);
      MixTakesLow(S[0], S[i], Flip(S[0], k), k);
      LowOfMixed(S[i], S[0], k);
      CarryByOne(Mix(S[i], S[0], k), T[i], k);
    }
  }

  /** The remaining steps of the pivot's level do not involve axis a. */
  lemma {:induction false} RestOfLevel(G: Point, K: Point, a: nat, i: nat, k: nat)
    requires i <= a < |G| && |G| == |K|
    requires NeighboursBelow(UndoFrom(G, a, k), UndoFrom(K, a, k), a, k + 1)
    ensures NeighboursBelow(UndoFrom(G, i, k), UndoFrom(K, i, k), a, k + 1)
    decreases a - i
  {
    if i < a {
      RestOfLevel(G, K, a, i + 1, k);
    }
  }

  /** The Gray codes G and K differ only at (level, axis), and read 1, 0, ..., 0
      below it. */
  ghost predicate Pivot(G: Point, K: Point, level: nat, axis: nat) {
    && |G| == |K| && axis < |G|
    && (forall c | 0 <= c < |G| && c != axis :: G[c] == K[c])
    && Shr(G[axis], level + 1) == Shr(K[axis], level + 1)
    && !Bit(G[axis], level) && Bit(K[axis], level)
    && LowPattern(G, level, axis) && LowPattern(K, level, axis)
  }

  ghost predicate LowPattern(G: Point, level: nat, axis: nat) {
    if axis < |G| - 1 then
      && LowCorner(G, level, 0)
      && forall a | axis < a < |G| :: Bit(G[a], level) == (a == axis + 1)
    else
      level > 0 ==>
        && LowCorner(G, level - 1, 0)
        && forall a | 0 <= a < |G| :: Bit(G[a], level - 1) == (a == 0)
  }

  /** Just before the pivot's step, the point is in the far corner of axis 0. */
  lemma BeforePivot(G: Point, level: nat, axis: nat) returns (x: nat)
    requires axis < |G| && LowPattern(G, level, axis)
    ensures UndoFrom(Undo(G, level), axis + 1, level) == G[0 := x]
    ensures LowCorner(G[0 := x], level, Pow2(level) - 1)
    ensures Shr(x, level) == Shr(G[0], level)
    ensures x == (if axis < |G| - 1 then Flip(G[0], level)
                  else if level > 0 then Flip(G[0], level - 1) else G[0])
  {
    if axis < |G| - 1 {
      UndoOfZeroLow(G, level);
      IdleFrom(G, axis + 2, level);
      x := Flip(G[0], level);
      LowOnes(G[0], level);
      FlipFacts(G[0], level);
    } else if level > 0 {
      UndoOfTopBit(G, level);
      x := Flip(G[0], level - 1);
      HighBitsKept(G[0], 0, level - 1, level);
      forall a | 1 <= a < |G|
        ensures Low(G[a], level) == 0
      {
        LowExtends(G[a], level - 1);
      }
    } else {
      x := G[0];
    }
  }

  lemma {:induction false} LowExtends(x: nat, k: nat)
    requires Low(x, k) == 0 && !Bit(x, k)
    ensures Low(x, k + 1) == 0
  {
    if k > 0 {
      LowExtends(x / 2, k - 1);
    } else {
      assert Low(x, 1) == x % 2 + 2 * Mix(0, x / 2, 0);
    }
  }

  lemma PivotLevel(G: Point, K: Point, level: nat, axis: nat)
    requires Pivot(G, K, level, axis)
    ensures NeighboursBelow(UndoFrom(Undo(G, level), 0, level), UndoFrom(Undo(K, level), 0, level), axis, level + 1)
  {
    var x := BeforePivot(G, level, axis);
    var y := BeforePivot(K, level, axis);
    var S, T := G[0 := x], K[0 := y];
    BitIsShiftedParity(x, level);
    BitIsShiftedParity(y, level);
    BitIsShiftedParity(G[0], level);
    BitIsShiftedParity(K[0], level);
    ShrShr(x, level, 1);
    ShrShr(y, level, 1);
    ShrShr(G[0], level, 1);
    ShrShr(K[0], level, 1);
    PivotStep(S, T, axis, level);
    RestOfLevel(Undo(G, level), Undo(K, level), axis, 0, level);
  }

  lemma {:induction false} NeighboursAreSymmetric(p: Point, q: Point, a: nat)
    requires NeighboursAlong(p, q, a)
    ensures NeighboursAlong(q, p, a)
  {
  }

  lemma PivotMakesNeighbours(G: Point, K: Point, level: nat, axis: nat, b: nat) returns (c: nat)
    requires Pivot(G, K, level, axis) && level < b
    ensures NeighboursAlong(Undo(G, b), Undo(K, b), c)
  {
    PivotLevel(G, K, level, axis);
    assert UndoFrom(Undo(G, 0), 0, 0) == G by { LevelZeroIsIdle(G, 0); }
    assert UndoFrom(Undo(K, 0), 0, 0) == K by { LevelZeroIsIdle(K, 0); }
    c := UndoKeepsNeighbours(G, K, axis, level + 1, b);
  }

  lemma {:induction false} LevelZeroIsIdle(X: Point, i: nat)
    requires i <= |X|
    ensures UndoFrom(X, i, 0) == X
    decreases |X| - i
  {
    if i < |X| { LevelZeroIsIdle(X, i + 1); }
  }

  // ---- from consecutive indices to a pivot --------------------------------

  lemma {:induction false} EqualIndices(X: Point, Y: Point, p: nat, q: nat)
    requires |X| == |Y| >= 1 && IndexFrom(X, p, q) == IndexFrom(Y, p, q)
    ensures forall k | p <= k < q :: FlatBit(X, k) == FlatBit(Y, k)
    decreases q - p
  {
    if p < q {
      EqualIndices(X, Y, p + 1, q);
    }
  }

  /** Adding one flips a run of ones and the zero above it. */
  lemma {:induction false} Increment(X: Point, Y: Point, p: nat, q: nat) returns (m: nat)
    requires |X| == |Y| >= 1 && IndexFrom(Y, p, q) == IndexFrom(X, p, q) + 1
    ensures p <= m < q && !FlatBit(X, m) && FlatBit(Y, m)
    ensures forall k | p <= k < m :: FlatBit(X, k) && !FlatBit(Y, k)
    ensures forall k | m < k < q :: FlatBit(X, k) == FlatBit(Y, k)
    decreases q - p
  {
    if FlatBit(X, p) {
      m := Increment(X, Y, p + 1, q);
    } else {
      m := p;
      EqualIndices(X, Y, p + 1, q);
    }
  }

  /** GrayDecode computes H ^ (H >> 1) on the interleaved bits. */
  lemma GrayBit(X: Point, p: nat)
    requires |X| >= 1
    ensures FlatBit(GrayDecode(X), p) == (FlatBit(X, p) != FlatBit(X, p + 1))
  {
    var n := |X|;
    NextPosition(n, p);
    var level, axis := LevelOf(n, p), AxisOf(n, p);
    BitXor(X[axis], if axis == 0 then X[n - 1] / 2 else X[axis - 1], level);
  }

  /** No bit is set at or above position n * b. */
  lemma TopBits(X: Point, b: nat, p: nat)
    requires InCube(X, b) && p >= Size(|X|, b)
    ensures !FlatBit(X, p)
  {
    PositionInRange(|X|, b, p);
    NoHighBits(X[AxisOf(|X|, p)], b, LevelOf(|X|, p));
  }

  /** The index of Y is that of X with a carry into position m. */
  ghost predicate CarryInto(X: Point, Y: Point, b: nat, m: nat) {
    && InCube(X, b) && InCube(Y, b) && |X| == |Y| && m < Size(|X|, b)
    && !FlatBit(X, m) && FlatBit(Y, m)
    && (forall k | 0 <= k < m :: FlatBit(X, k) && !FlatBit(Y, k))
    && (forall k | m < k < Size(|X|, b) :: FlatBit(X, k) == FlatBit(Y, k))
  }

  /** The bits of the two Gray codes, by position: equal except at m, and
      1, 0, ..., 0 below m. */
  lemma GrayOfIncrement(X: Point, Y: Point, b: nat, m: nat, p: nat)
    requires CarryInto(X, Y, b, m)
    ensures FlatBit(GrayDecode(X), p) == FlatBit(GrayDecode(Y), p) <==> p != m
    ensures p < m ==> FlatBit(GrayDecode(X), p) == (p == m - 1)
  {
    GrayBit(X, p);
    GrayBit(Y, p);
    if p >= Size(|X|, b) {
      TopBits(X, b, p);
      TopBits(Y, b, p);
    }
    if p + 1 >= Size(|X|, b) {
      TopBits(X, b, p + 1);
      TopBits(Y, b, p + 1);
    }
  }

  lemma PositionOrder(n: nat, j: nat, a: nat, level: nat, axis: nat)
    requires a < n && axis < n
    ensures j < level || (j == level && a > axis) ==> Position(n, j, a) < Position(n, level, axis)
    ensures Position(n, j, a) == Position(n, level, axis) <==> j == level && a == axis
    ensures Position(n, j, a) + 1 == Position(n, level, axis) <==>
            (j == level && a == axis + 1) || (j + 1 == level && a == 0 && axis == n - 1)
  {
    MultiplesAreOrdered(j + 1, level, n);
    MultiplesAreOrdered(j + 2, level, n);
    MultiplesAreOrdered(level + 1, j, n);
    assert (j + 1) * n == j * n + n && (j + 2) * n == j * n + n + n;
    assert (level + 1) * n == level * n + n;
    if j + 1 == level {
      assert level * n == j * n + n;
    }
  }

  /** What GrayOfIncrement says, by level and axis. */
  ghost predicate GrayPair(G: Point, K: Point, b: nat, level: nat, axis: nat) {
    && InCube(G, b) && InCube(K, b) && |G| == |K| && axis < |G|
    && forall j: nat, a: nat | a < |G| ::
         && (Bit(G[a], j) == Bit(K[a], j) <==> !(j == level && a == axis))
         && (Position(|G|, j, a) < Position(|G|, level, axis) ==>
               Bit(G[a], j) == (Position(|G|, j, a) + 1 == Position(|G|, level, axis)))
  }

  lemma GrayPairPattern(G: Point, K: Point, b: nat, level: nat, axis: nat)
    requires GrayPair(G, K, b, level, axis)
    ensures LowPattern(G, level, axis)
  {
    forall j: nat, a: nat | a < |G| && (j < level || (j == level && a > axis))
      ensures Bit(G[a], j) == ((j == level && a == axis + 1) || (j + 1 == level && a == 0 && axis == |G| - 1))
    {
      PositionOrder(|G|, j, a, level, axis);
    }
    forall a | 0 <= a < |G|
      ensures axis < |G| - 1 ==> Low(G[a], level) == 0
      ensures axis == |G| - 1 && level > 0 ==> Low(G[a], level - 1) == 0
    {
      if axis < |G| - 1 {
        LowFromBits(G[a], level);
      } else if level > 0 {
        LowFromBits(G[a], level - 1);
      }
    }
  }

  lemma GrayPairPivot(G: Point, K: Point, b: nat, level: nat, axis: nat)
    requires GrayPair(G, K, b, level, axis) && !Bit(G[axis], level)
    ensures Pivot(G, K, level, axis)
  {
    forall c | 0 <= c < |G| && c != axis
      ensures G[c] == K[c]
    {
      SameBits(G[c], K[c], b);
    }
    var x, y := Shr(G[axis], level + 1), Shr(K[axis], level + 1);
    ShrIsSmaller(G[axis], level + 1);
    ShrIsSmaller(K[axis], level + 1);
    forall j | 0 <= j < b
      ensures Bit(x, j) == Bit(y, j)
    {
      BitShr(G[axis], level + 1, j);
      BitShr(K[axis], level + 1, j);
    }
    SameBits(x, y, b);
    GrayPairPattern(G, K, b, level, axis);
    forall j: nat, a: nat | a < |K|
      ensures Position(|K|, j, a) < Position(|K|, level, axis) ==>
                Bit(K[a], j) == (Position(|K|, j, a) + 1 == Position(|K|, level, axis))
    {
      PositionOrder(|K|, j, a, level, axis);
    }
    GrayPairPattern(K, G, b, level, axis);
  }

  lemma {:induction false} ShrIsSmaller(x: nat, k: nat)
    ensures Shr(x, k) <= x
  {
    if k > 0 { ShrIsSmaller(x / 2, k - 1); }
  }

  lemma GrayBitsOfIncrement(X: Point, Y: Point, b: nat, level: nat, axis: nat, j: nat, a: nat)
    requires axis < |X| && a < |X| && CarryInto(X, Y, b, Position(|X|, level, axis))
    ensures Bit(GrayDecode(X)[a], j) == Bit(GrayDecode(Y)[a], j) <==> !(j == level && a == axis)
    ensures Position(|X|, j, a) < Position(|X|, level, axis) ==>
              Bit(GrayDecode(X)[a], j) == (Position(|X|, j, a) + 1 == Position(|X|, level, axis))
  {
    var G, K := GrayDecode(X), GrayDecode(Y);
    GrayOfIncrement(X, Y, b, Position(|X|, level, axis), Position(|X|, j, a));
    PositionOrder(|X|, j, a, level, axis);
    FlatBitAt(G, j, a);
    FlatBitAt(K, j, a);
  }

  lemma IncrementGivesGrayPair(X: Point, Y: Point, b: nat) returns (level: nat, axis: nat)
    requires InCube(X, b) && InCube(Y, b) && |X| == |Y|
    requires Index(Y, b) == Index(X, b) + 1
    ensures level < b && GrayPair(GrayDecode(X), GrayDecode(Y), b, level, axis)
  {
    var n := |X|;
    var m := Increment(X, Y, 0, Size(n, b));
    level, axis := LevelOf(n, m), AxisOf(n, m);
    PositionInRange(n, b, m);
    PositionOf(n, m);
    GrayDecodeInCube(X, b);
    GrayDecodeInCube(Y, b);
    forall j: nat, a: nat | a < n
      ensures Bit(GrayDecode(X)[a], j) == Bit(GrayDecode(Y)[a], j) <==> !(j == level && a == axis)
      ensures Position(n, j, a) < Position(n, level, axis) ==>
                Bit(GrayDecode(X)[a], j) == (Position(n, j, a) + 1 == Position(n, level, axis))
    {
      GrayBitsOfIncrement(X, Y, b, level, axis, j, a);
    }
  }

  // ---- the main results ---------------------------------------------------

  /** The points of two transposed indices whose Hilbert integers are consecutive
      are neighbours. */
  lemma ConsecutiveTransposesAreNeighbours(X: Point, Y: Point, b: nat)
    requires InCube(X, b) && InCube(Y, b) && |X| == |Y|
    requires Index(Y, b) == Index(X, b) + 1
    ensures Neighbours(Axes(X, b), Axes(Y, b))
  {
    var G, K := GrayDecode(X), GrayDecode(Y);
    var level, axis := IncrementGivesGrayPair(X, Y, b);
    if Bit(G[axis], level) {
      forall j: nat, a: nat | a < |K|
        ensures Position(|K|, j, a) < Position(|K|, level, axis) ==>
                  Bit(K[a], j) == (Position(|K|, j, a) + 1 == Position(|K|, level, axis))
      {
        PositionOrder(|K|, j, a, level, axis);
      }
      GrayPairPivot(K, G, b, level, axis);
      var c := PivotMakesNeighbours(K, G, level, axis, b);
      NeighboursAreSymmetric(Axes(Y, b), Axes(X, b), c);
    } else {
      GrayPairPivot(G, K, b, level, axis);
      var c := PivotMakesNeighbours(G, K, level, axis, b);
    }
  }

  /** The point that TransposetoAxes gives for the Hilbert integer h. */
  function PointAt(h: nat, b: nat, n: nat): (X: Point)
    requires n >= 1
    ensures |X| == n
  {
    Axes(Spread(h, b, n), b)
  }

  /** The Hilbert integer that AxestoTranspose gives for the point X. */
  function HilbertInteger(X: Point, b: nat): nat
    requires |X| >= 1
  {
    Index(Transposed(X, b), b)
  }

  /** Hilbert adjacency: successive indices are successive points of one walk. */
  lemma CurveMovesOneUnit(h: nat, b: nat, n: nat)
    requires n >= 1 && h + 1 < Pow2(Size(n, b))
    ensures Neighbours(PointAt(h, b, n), PointAt(h + 1, b, n))
  {
    SpreadInCube(h, b, n);
    SpreadInCube(h + 1, b, n);
    IndexOfSpread(h, b, n);
    IndexOfSpread(h + 1, b, n);
    ConsecutiveTransposesAreNeighbours(Spread(h, b, n), Spread(h + 1, b, n), b);
  }

  /** The map is a bijection: HilbertInteger takes the cube into the range and
      PointAt is its inverse there ... */
  lemma PointOfInteger(X: Point, b: nat)
    requires InCube(X, b)
    ensures HilbertInteger(X, b) < Pow2(Size(|X|, b))
    ensures PointAt(HilbertInteger(X, b), b, |X|) == X
  {
    TransposedInCube(X, b);
    IndexBound(Transposed(X, b), b);
    SpreadOfIndex(Transposed(X, b), b);
    AxesOfTransposed(X, b);
  }

  /** ... and on the whole range. */
  lemma IntegerOfPoint(h: nat, b: nat, n: nat)
    requires n >= 1 && h < Pow2(Size(n, b))
    ensures InCube(PointAt(h, b, n), b)
    ensures HilbertInteger(PointAt(h, b, n), b) == h
  {
    SpreadInCube(h, b, n);
    AxesInCube(Spread(h, b, n), b);
    TransposedOfAxes(Spread(h, b, n), b);
    IndexOfSpread(h, b, n);
  }
}
