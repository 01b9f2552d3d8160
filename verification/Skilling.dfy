/** TransposetoAxes and AxestoTranspose of skilling.c, in place on an array of
    32-bit words, with the source's shifts and masks. */
module Skilling {
  import opened Bits
  import opened Hilbert
  import opened HilbertIndex
  import opened HilbertCurve
  import opened HilbertRecursion

  /** Shifts to the left are taken modulo the number of words. */
  const WORDS: nat := 0x1_0000_0000

  lemma FitsWord(x: nat, b: nat)
    requires x < Pow2(b) && b <= 32
    ensures x < 0x1_0000_0000
  {
    Pow2Bound(b);
  }

  /** The conditional step on axis i with Q the k-th power of two and P = Q - 1. */
  method Step(X: array<Word>, i: nat, Q: nat, ghost k: nat, ghost b: nat)
    requires i < X.Length && Q == Pow2(k) && k <= b <= 32 && InCube(X[..], b)
    modifies X
    ensures InCube(X[..], b) && X[..] == Twist(old(X[..]), i, k)
  {
    var P := Q - 1;
    ghost var x0, xi := X[0], X[i];
    ghost var was := X[..];
    TwistInCube(was, i, k, b);
    AndPow2(X[i], k);
    if And(X[i], Q) != 0 {
      XorMask(x0, k);
      FlipBound(x0, k, b);
      FitsWord(Flip(x0, k), b);
      X[0] := Xor(X[0], P);                               // invert
    } else {
      XorMasked(x0, xi, k);
      MixBound(x0, xi, k, b);
      MixBound(xi, x0, k, b);
      FitsWord(Mix(x0, xi, k), b);
      FitsWord(Mix(xi, x0, k), b);
      MixFacts(x0, x0, k);
      if i == 0 {                                         // the source leaves axis 0 alone here
      } else {
        var t := And(Xor(X[0], X[i]), P);                 // exchange
        X[0] := Xor(X[0], t);
        X[i] := Xor(X[i], t);
      }
    }
    assert X[..] == Twist(was, i, k);
  }

  /** The inner loop of TransposetoAxes and the step on axis 0 that follows it. */
  method UndoLevel(X: array<Word>, Q: nat, ghost k: nat, ghost b: nat)
    requires Q == Pow2(k) && k <= b <= 32 && InCube(X[..], b)
    modifies X
    ensures InCube(X[..], b) && X[..] == UndoFrom(old(X[..]), 0, k)
  {
    var i := X.Length;
    while i != 0
      invariant 0 <= i <= X.Length
      invariant InCube(X[..], b)
      invariant X[..] == UndoFrom(old(X[..]), i, k)
    {
      i := i - 1;
      Step(X, i, Q, k, b);
    }
  }

  method TransposeToAxes(X: array<Word>, b: nat)
    requires X.Length >= 1 && 1 <= b <= 32 && InCube(X[..], b)
    modifies X
    ensures InCube(X[..], b)
    ensures X[..] == Axes(old(X[..]), b)
    ensures X[..] == Curve(Index(old(X[..]), b), b, X.Length)
  {
    AxesAreOnCurve(X[..], b);
    GrayDecodeInPlace(X, b);
    UndoExcessWork(X, b);
  }

  method UndoExcessWork(X: array<Word>, b: nat)
    requires 1 <= b <= 32 && InCube(X[..], b)
    modifies X
    ensures InCube(X[..], b)
    ensures X[..] == Undo(old(X[..]), b)
  {
    var M := 2 * Pow2(b - 1) % WORDS;
    assert M == Pow2(b) % WORDS;
    var Q := 2;
    ghost var k := 1;
    while Q != M
      invariant 1 <= k <= b && Q == Pow2(k) % WORDS
      invariant InCube(X[..], b)
      invariant X[..] == Undo(old(X[..]), k)
      decreases b - k
    {
      PowersDiffer(k, b);
      UndoLevel(X, Q, k, b);
      Q := Q * 2 % WORDS;
      k := k + 1;
    }
    PowersDiffer(k, b);
  }

  /** Shifting the top bit out of a word leaves zero, which no smaller power is:
      the loop stops at M for 32 bits too. */
  lemma PowersDiffer(k: nat, b: nat)
    requires k <= b <= 32
    ensures k < b ==> Pow2(k) % WORDS == Pow2(k) != Pow2(b) % WORDS
  {
    if k < b {
      Pow2Strict(k, b);
      Pow2Bound(b);
      Pow2Of32();
      SmallPowers(Pow2(k), Pow2(b));
    }
  }

  lemma SmallPowers(x: nat, y: nat)
    requires 0 < x < y <= WORDS
    ensures x % WORDS == x != y % WORDS
  {
  }

  lemma Pow2Strict(j: nat, k: nat)
    ensures j < k ==> Pow2(j) < Pow2(k)
  {
    if j < k { Pow2Monotone(j, k - 1); }
  }

  /** Y is the Gray code of X, entry by entry. */
  ghost predicate DecodedBy(X: Point, Y: Point) {
    && |X| == |Y| >= 1
    && Y[0] == Xor(X[0], X[|X| - 1] / 2)
    && forall a | 1 <= a < |X| :: Y[a] == Xor(X[a], X[a - 1])
  }

  lemma DecodedEntries(X: Point, Y: Point, b: nat)
    requires DecodedBy(X, Y) && InCube(X, b)
    ensures Y == GrayDecode(X) && InCube(Y, b)
  {
    assert Y == GrayDecode(X);
    GrayDecodeInCube(X, b);
  }

  method XorOne(X: array<Word>, i: nat, t: nat, ghost b: nat)
    requires i < X.Length && b <= 32 && X[i] < Pow2(b) && t < Pow2(b)
    modifies X
    ensures X[i] == Xor(old(X[i]), t)
    ensures forall a | 0 <= a < X.Length && a != i :: X[a] == old(X[a])
  {
    XorBound(X[i], t, b);
    FitsWord(Xor(X[i], t), b);
    X[i] := Xor(X[i], t);
  }

  method GrayDecodeInPlace(X: array<Word>, ghost b: nat)
    requires X.Length >= 1 && b <= 32 && InCube(X[..], b)
    modifies X
    ensures InCube(X[..], b)
    ensures X[..] == GrayDecode(old(X[..]))
  {
    ghost var was := X[..];
    var t := X[X.Length - 1] / 2;
    assert was[X.Length - 1] < Pow2(b);
    var i := X.Length - 1;
    while i != 0
      invariant 0 <= i <= X.Length - 1
      invariant forall a | 0 <= a <= i :: X[a] == was[a]
      invariant forall a | i < a < X.Length :: X[a] == Xor(was[a], was[a - 1])
    {
      assert was[i] < Pow2(b) && was[i - 1] < Pow2(b);
      XorOne(X, i, X[i - 1], b);
      i := i - 1;
    }
    assert was[0] < Pow2(b);
    XorOne(X, 0, t, b);
    DecodedEntries(was, X[..], b);
  }

  /** The step on axis 0 and the inner loop of AxestoTranspose after it. */
  method RedoLevel(X: array<Word>, Q: nat, ghost k: nat, ghost b: nat)
    requires Q == Pow2(k) && k <= b <= 32 && InCube(X[..], b)
    modifies X
    ensures InCube(X[..], b) && X[..] == RedoTo(old(X[..]), X.Length, k)
  {
    var i := 0;
    while i < X.Length
      invariant 0 <= i <= X.Length
      invariant InCube(X[..], b)
      invariant X[..] == RedoTo(old(X[..]), i, k)
    {
      Step(X, i, Q, k, b);
      i := i + 1;
    }
  }

  method AxesToTranspose(X: array<Word>, b: nat)
    requires X.Length >= 1 && 1 <= b <= 32 && InCube(X[..], b)
    modifies X
    ensures InCube(X[..], b)
    ensures X[..] == Transposed(old(X[..]), b)
    ensures old(X[..]) == Curve(Index(X[..], b), b, X.Length)
  {
    hide Curve, Index;
    ghost var was := X[..];
    OnCurve(was, b);
    var Q := Pow2(b - 1);
    ghost var k := b - 1;
    while Q > 1
      invariant 0 <= k < b && Q == Pow2(k)
      invariant InCube(X[..], b)
      invariant Redo(X[..], k + 1) == Redo(was, b)
      decreases k
    {
      RedoLevel(X, Q, k, b);
      Q := Q / 2;
      k := k - 1;
    }
    Pow2Strict(0, k);
    GrayEncodeInPlace(X, b);
  }

  lemma OnCurve(X: Point, b: nat)
    requires InCube(X, b)
    ensures X == Curve(Index(Transposed(X, b), b), b, |X|)
  {
    PointOfInteger(X, b);
    TransposedIsOnCurve(X, b, Index(Transposed(X, b), b));
  }

  /** Exclusive or of x, x >> 1, ..., x >> (m - 1). */
  function Window(x: nat, m: nat): nat {
    if m == 0 then 0 else Xor(x, Window(x / 2, m - 1))
  }

  lemma {:induction false} WindowSplit(x: nat, l: nat, m: nat)
    ensures Window(x, l + m) == Xor(Window(x, l), Shr(Window(x, m), l))
  {
    if l == 0 {
      XorZero(Window(x, m));
    } else {
      WindowSplit(x / 2, l - 1, m);
      HalfOfWindow(x, m);
      XorAssoc(x, Window(x / 2, l - 1), Shr(Window(x / 2, m), l - 1));
    }
  }

  lemma {:induction false} HalfOfWindow(x: nat, m: nat)
    ensures Window(x, m) / 2 == Window(x / 2, m)
  {
    if m > 0 { HalfOfWindow(x / 2, m - 1); }
  }

  /** A window at least as wide as the word is the full prefix parity. */
  lemma {:induction false} WideWindow(x: nat, b: nat, m: nat)
    requires x < Pow2(b) && b <= m
    ensures Window(x, m) == PrefixXor(x)
    decreases m
  {
    if m > 0 {
      if b > 0 {
        WideWindow(x / 2, b - 1, m - 1);
      } else {
        WideWindow(0, 0, m - 1);
      }
      XorZero(0);
    }
  }

  lemma {:induction false} WindowBound(x: nat, m: nat, b: nat)
    requires x < Pow2(b)
    ensures Window(x, m) < Pow2(b)
    decreases m
  {
    if m > 0 {
      WindowBound(x / 2, m - 1, b);
      XorBound(x, Window(x / 2, m - 1), b);
    }
  }

  /** The shift loop with i = 1, 2, 4, ...: a doubling scan computes the
      bit-by-bit prefix parity. */
  method DoublingScan(x: Word, b: nat) returns (y: Word)
    requires b <= 32 && x < Pow2(b)
    ensures y < Pow2(b)
    ensures y == PrefixXor(x)
  {
    y := x;
    var i := 1;
    XorZero(x);
    while i < b
      invariant i >= 1
      invariant y == Window(x, i) && y < Pow2(b)
      decreases b - i
    {
      WindowSplit(x, i, i);
      WindowBound(x, i + i, b);
      FitsWord(Window(x, i + i), b);
      y := Xor(y, Shr(y, i));
      i := i * 2;
    }
    WideWindow(x, b, i);
  }

  /** The correction t of the source is the scanned word shifted right by one. */
  lemma {:induction false} CorrectionIsHalf(x: nat)
    ensures Xor(x, PrefixXor(x)) == PrefixXor(x) / 2
    ensures Xor(x, PrefixXor(x) / 2) == PrefixXor(x)
  {
    var p := PrefixXor(x);
    GrayUndoesPrefixXor(x);
    XorSolve(p, p / 2, x);
    XorCommutes(x, p);
    XorCancels(p, p / 2);
  }

  method RunningXor(X: array<Word>, ghost b: nat)
    requires X.Length >= 1 && b <= 32 && InCube(X[..], b)
    modifies X
    ensures forall a | 0 <= a < X.Length :: X[a] == Running(old(X[..]), a)
  {
    ghost var was := X[..];
    var i := 1;
    while i < X.Length
      invariant 1 <= i <= X.Length
      invariant forall a | 0 <= a < i :: X[a] == Running(was, a)
      invariant forall a | i <= a < X.Length :: X[a] == was[a]
    {
      RunningBound(was, i, b);
      FitsWord(Running(was, i), b);
      X[i] := Xor(X[i], X[i - 1]);
      i := i + 1;
    }
  }

  method XorAllButLast(X: array<Word>, t: nat, ghost b: nat)
    requires X.Length >= 1 && b <= 32 && InCube(X[..], b) && t < Pow2(b)
    modifies X
    ensures X[X.Length - 1] == old(X[X.Length - 1])
    ensures forall a | 0 <= a < X.Length - 1 :: X[a] == Xor(old(X[a]), t)
  {
    var i := X.Length - 2;
    while i >= 0
      invariant -1 <= i <= X.Length - 2
      invariant forall a | 0 <= a <= i || a == X.Length - 1 :: X[a] == old(X[a])
      invariant forall a | i < a < X.Length - 1 :: X[a] == Xor(old(X[a]), t)
    {
      assert X[i] == old(X[..])[i];
      XorBound(X[i], t, b);
      FitsWord(Xor(X[i], t), b);
      X[i] := Xor(X[i], t);
      i := i - 1;
    }
  }

  /** The encoded point, entry by entry as the source computes it from the
      running exclusive ors R and the scanned last word. */
  ghost predicate EncodedBy(X: Point, R: Point, Y: Point) {
    && |X| == |R| == |Y| >= 1
    && (forall a | 0 <= a < |X| :: R[a] == Running(X, a))
    && Y[|X| - 1] == PrefixXor(R[|X| - 1])
    && forall a | 0 <= a < |X| - 1 :: Y[a] == Xor(R[a], Xor(R[|X| - 1], Y[|X| - 1]))
  }

  lemma EncodedEntries(X: Point, R: Point, Y: Point, b: nat)
    requires EncodedBy(X, R, Y) && InCube(X, b)
    ensures Y == GrayEncode(X) && InCube(Y, b)
  {
    CorrectionIsHalf(R[|X| - 1]);
    GrayEncodeInCube(X, b);
    assert Y == GrayEncode(X);
  }

  method CorrectAll(X: array<Word>, b: nat)
    requires X.Length >= 1 && b <= 32 && InCube(X[..], b)
    modifies X
    ensures X[X.Length - 1] == PrefixXor(old(X[X.Length - 1]))
    ensures forall a | 0 <= a < X.Length - 1 ::
              X[a] == Xor(old(X[a]), Xor(old(X[X.Length - 1]), X[X.Length - 1]))
  {
    ghost var was := X[..];
    var last := X[X.Length - 1];
    assert was[X.Length - 1] == last;
    var p := DoublingScan(last, b);
    X[X.Length - 1] := p;
    XorBound(last, p, b);
    assert InCube(X[..], b) by {
      assert X[..] == was[X.Length - 1 := p];
    }
    XorAllButLast(X, Xor(last, p), b);
  }

  method GrayEncodeInPlace(X: array<Word>, b: nat)
    requires X.Length >= 1 && 1 <= b <= 32 && InCube(X[..], b)
    modifies X
    ensures InCube(X[..], b)
    ensures X[..] == GrayEncode(old(X[..]))
  {
    ghost var was := X[..];
    RunningXor(X, b);
    ghost var R := X[..];
    forall a | 0 <= a < |R|
      ensures R[a] < Pow2(b)
    {
      RunningBound(was, a, b);
    }
    CorrectAll(X, b);
    assert EncodedBy(was, R, X[..]) by {
      assert R[X.Length - 1] == Running(was, X.Length - 1);
    }
    EncodedEntries(was, R, X[..], b);
  }

  /** The sample program: the Hilbert integer of a position in the 32x32x32 cube. */
  method SampleProgram(x: Word, y: Word, z: Word) returns (H: nat)
    requires x < 32 && y < 32 && z < 32
    ensures H == HilbertInteger([x, y, z], 5)
    ensures PointAt(H, 5, 3) == [x, y, z] == Curve(H, 5, 3)
  {
    var X := new Word[3];
    X[0], X[1], X[2] := x, y, z;
    assert X[..] == [x, y, z];
    assert Pow2(5) == 32;
    AxesToTranspose(X, 5);
    SampleProgramIndex(X[..]);
    H := (Shr(X[2], 0) % 2) *    1 + (Shr(X[1], 0) % 2) *    2 + (Shr(X[0], 0) % 2) *     4 +
         (Shr(X[2], 1) % 2) *    8 + (Shr(X[1], 1) % 2) *   16 + (Shr(X[0], 1) % 2) *    32 +
         (Shr(X[2], 2) % 2) *   64 + (Shr(X[1], 2) % 2) *  128 + (Shr(X[0], 2) % 2) *   256 +
         (Shr(X[2], 3) % 2) *  512 + (Shr(X[1], 3) % 2) * 1024 + (Shr(X[0], 3) % 2) *  2048 +
         (Shr(X[2], 4) % 2) * 4096 + (Shr(X[1], 4) % 2) * 8192 + (Shr(X[0], 4) % 2) * 16384;
    PointOfInteger([x, y, z], 5);
    OnCurve([x, y, z], 5);
  }
}
