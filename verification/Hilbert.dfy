/** The two coordinate transforms of skilling.c as functions on a point, i.e. a
    sequence of n words of b bits.  A step of the transform is described by what
    it does to the low-order subcube (reflect axis 0, or exchange axis 0 with
    axis i); the mask arithmetic that achieves it is in module Skilling. */
module Hilbert {
  import opened Bits

  type Point = seq<nat>

  predicate InCube(X: Point, b: nat) {
    |X| >= 1 && forall i | 0 <= i < |X| :: X[i] < Pow2(b)
  }

  /** One step at level k: bit k of axis i decides whether the k low bits of
      axis 0 are inverted or exchanged with those of axis i. */
  function Twist(X: Point, i: nat, k: nat): (Y: Point)
    requires i < |X|
    ensures |Y| == |X|
  {
    if Bit(X[i], k) then X[0 := Flip(X[0], k)]
    else X[0 := Mix(X[0], X[i], k)][i := Mix(X[i], X[0], k)]
  }

  /** The steps of one level on axes n-1, ..., i, in that order. */
  function UndoFrom(X: Point, i: nat, k: nat): (Y: Point)
    requires i <= |X|
    ensures |Y| == |X|
    decreases |X| - i
  {
    if i == |X| then X else Twist(UndoFrom(X, i + 1, k), i, k)
  }

  /** The steps of one level on axes 0, ..., i-1, in that order. */
  function RedoTo(X: Point, i: nat, k: nat): (Y: Point)
    requires i <= |X|
    ensures |Y| == |X|
    decreases i
  {
    if i == 0 then X else Twist(RedoTo(X, i - 1, k), i - 1, k)
  }

  /** Levels 1, ..., b-1 in ascending order ("undo excess work"). */
  function Undo(X: Point, b: nat): (Y: Point)
    ensures |Y| == |X|
  {
    if b <= 1 then X else UndoFrom(Undo(X, b - 1), 0, b - 1)
  }

  /** Levels b-1, ..., 1 in descending order ("inverse undo"). */
  function Redo(X: Point, b: nat): (Y: Point)
    ensures |Y| == |X|
    decreases b
  {
    if b <= 1 then X else Redo(RedoTo(X, |X|, b - 1), b - 1)
  }

  /** The Gray code H ^ (H >> 1) of the transposed index X. */
  function GrayDecode(X: Point): (Y: Point)
    requires |X| >= 1
    ensures |Y| == |X|
  {
    seq(|X|, i requires 0 <= i < |X| =>
      Xor(X[i], if i == 0 then X[|X| - 1] / 2 else X[i - 1]))
  }

  /** X[0] ^ ... ^ X[i]. */
  function Running(X: Point, i: nat): nat
    requires i < |X|
  {
    if i == 0 then X[0] else Xor(X[i], Running(X, i - 1))
  }

  /** Bit k of the result is the parity of the bits of x from k upwards. */
  function PrefixXor(x: nat): nat {
    if x == 0 then 0 else Xor(x, PrefixXor(x / 2))
  }

  function Masked(X: Point, t: nat): (Y: Point)
    ensures |Y| == |X|
  {
    seq(|X|, i requires 0 <= i < |X| => Xor(Running(X, i), t))
  }

  /** The inverse of GrayDecode: running exclusive ors, corrected by t. */
  function GrayEncode(X: Point): (Y: Point)
    requires |X| >= 1
    ensures |Y| == |X|
  {
    Masked(X, PrefixXor(Running(X, |X| - 1)) / 2)
  }

  /** What TransposetoAxes computes. */
  function Axes(X: Point, b: nat): (Y: Point)
    requires |X| >= 1
    ensures |Y| == |X|
  {
    Undo(GrayDecode(X), b)
  }

  /** What AxestoTranspose computes. */
  function Transposed(X: Point, b: nat): (Y: Point)
    requires |X| >= 1
    ensures |Y| == |X|
  {
    GrayEncode(Redo(X, b))
  }

  // ---- every intermediate value stays below 2^b ---------------------------

  lemma TwistInCube(X: Point, i: nat, k: nat, b: nat)
    requires InCube(X, b) && i < |X| && k <= b
    ensures InCube(Twist(X, i, k), b)
  {
    FlipBound(X[0], k, b);
    MixBound(X[0], X[i], k, b);
    MixBound(X[i], X[0], k, b);
  }

  lemma {:induction false} UndoFromInCube(X: Point, i: nat, k: nat, b: nat)
    requires InCube(X, b) && i <= |X| && k <= b
    ensures InCube(UndoFrom(X, i, k), b)
    decreases |X| - i
  {
    if i < |X| {
      UndoFromInCube(X, i + 1, k, b);
      TwistInCube(UndoFrom(X, i + 1, k), i, k, b);
    }
  }

  lemma {:induction false} RedoToInCube(X: Point, i: nat, k: nat, b: nat)
    requires InCube(X, b) && i <= |X| && k <= b
    ensures InCube(RedoTo(X, i, k), b)
    decreases i
  {
    if i > 0 {
      RedoToInCube(X, i - 1, k, b);
      TwistInCube(RedoTo(X, i - 1, k), i - 1, k, b);
    }
  }

  lemma {:induction false} UndoInCube(X: Point, k: nat, b: nat)
    requires InCube(X, b) && k <= b
    ensures InCube(Undo(X, k), b)
  {
    if k > 1 {
      UndoInCube(X, k - 1, b);
      UndoFromInCube(Undo(X, k - 1), 0, k - 1, b);
    }
  }

  lemma {:induction false} RedoInCube(X: Point, k: nat, b: nat)
    requires InCube(X, b) && k <= b
    ensures InCube(Redo(X, k), b)
    decreases k
  {
    if k > 1 {
      RedoToInCube(X, |X|, k - 1, b);
      RedoInCube(RedoTo(X, |X|, k - 1), k - 1, b);
    }
  }

  lemma GrayDecodeInCube(X: Point, b: nat)
    requires InCube(X, b)
    ensures InCube(GrayDecode(X), b)
  {
    forall i | 0 <= i < |X|
      ensures GrayDecode(X)[i] < Pow2(b)
    {
      XorBound(X[i], if i == 0 then X[|X| - 1] / 2 else X[i - 1], b);
    }
  }

  lemma {:induction false} RunningBound(X: Point, i: nat, b: nat)
    requires InCube(X, b) && i < |X|
    ensures Running(X, i) < Pow2(b)
  {
    if i > 0 {
      RunningBound(X, i - 1, b);
      XorBound(X[i], Running(X, i - 1), b);
    }
  }

  lemma {:induction false} PrefixXorBound(x: nat, b: nat)
    requires x < Pow2(b)
    ensures PrefixXor(x) < Pow2(b)
  {
    if x > 0 {
      PrefixXorBound(x / 2, b - 1);
      XorBound(x, PrefixXor(x / 2), b);
    }
  }

  lemma GrayEncodeInCube(X: Point, b: nat)
    requires InCube(X, b)
    ensures InCube(GrayEncode(X), b)
  {
    RunningBound(X, |X| - 1, b);
    PrefixXorBound(Running(X, |X| - 1), b);
    forall i | 0 <= i < |X|
      ensures GrayEncode(X)[i] < Pow2(b)
    {
      RunningBound(X, i, b);
      XorBound(Running(X, i), PrefixXor(Running(X, |X| - 1)) / 2, b);
    }
  }

  lemma AxesInCube(X: Point, b: nat)
    requires InCube(X, b)
    ensures InCube(Axes(X, b), b)
  {
    GrayDecodeInCube(X, b);
    UndoInCube(GrayDecode(X), b, b);
  }

  lemma TransposedInCube(X: Point, b: nat)
    requires InCube(X, b)
    ensures InCube(Transposed(X, b), b)
  {
    RedoInCube(X, b, b);
    GrayEncodeInCube(Redo(X, b), b);
  }

  // ---- the transforms undo each other -------------------------------------

  /** A step never changes the bit that controls it, so it is its own inverse. */
  lemma TwistIsInvolution(X: Point, i: nat, k: nat)
    requires i < |X|
    ensures Twist(Twist(X, i, k), i, k) == X
  {
    FlipFacts(X[0], k);
    MixFacts(X[0], X[i], k);
    MixFacts(X[i], X[0], k);
    HighBitsKept(X[0], X[i], k, k);
    HighBitsKept(X[i], X[0], k, k);
  }

  lemma {:induction false} RedoPeelsUndo(X: Point, i: nat, k: nat)
    requires i <= |X|
    ensures RedoTo(UndoFrom(X, 0, k), i, k) == UndoFrom(X, i, k)
  {
    if i > 0 {
      RedoPeelsUndo(X, i - 1, k);
      TwistIsInvolution(UndoFrom(X, i, k), i - 1, k);
    }
  }

  lemma {:induction false} UndoPeelsRedo(X: Point, i: nat, k: nat)
    requires i <= |X|
    ensures UndoFrom(RedoTo(X, |X|, k), i, k) == RedoTo(X, i, k)
    decreases |X| - i
  {
    if i < |X| {
      UndoPeelsRedo(X, i + 1, k);
      TwistIsInvolution(RedoTo(X, i, k), i, k);
    }
  }

  lemma {:induction false} RedoUndo(X: Point, b: nat)
    ensures Redo(Undo(X, b), b) == X
  {
    if b > 1 {
      RedoPeelsUndo(Undo(X, b - 1), |X|, b - 1);
      RedoUndo(X, b - 1);
    }
  }

  lemma {:induction false} UndoRedo(X: Point, b: nat)
    ensures Undo(Redo(X, b), b) == X
    decreases b
  {
    if b > 1 {
      UndoRedo(RedoTo(X, |X|, b - 1), b - 1);
      UndoPeelsRedo(X, 0, b - 1);
    }
  }

  lemma {:induction false} PrefixXorUndoesGray(x: nat)
    ensures PrefixXor(Xor(x, x / 2)) == x
  {
    if x > 0 {
      var g := Xor(x, x / 2);
      PrefixXorUndoesGray(x / 2);
      assert g / 2 == Xor(x / 2, x / 2 / 2);
      XorCancels(x, x / 2);
      XorCommutes(x, x / 2);
      XorZero(x);
      if g == 0 {
        XorZero(x / 2);
      }
    }
  }

  lemma GrayUndoesPrefixXor(x: nat)
    ensures Xor(PrefixXor(x), PrefixXor(x) / 2) == x
  {
    if x > 0 {
      HalfPrefixXor(x);
      XorCancels(x, PrefixXor(x / 2));
    }
  }

  lemma {:induction false} HalfPrefixXor(x: nat)
    ensures PrefixXor(x) / 2 == PrefixXor(x / 2)
  {
    if x > 0 {
      HalfPrefixXor(x / 2);
    }
  }

  /** The running exclusive or of a Gray-decoded point telescopes. */
  lemma {:induction false} RunningOfDecoded(X: Point, i: nat)
    requires i < |X|
    ensures Running(GrayDecode(X), i) == Xor(X[i], X[|X| - 1] / 2)
  {
    if i > 0 {
      RunningOfDecoded(X, i - 1);
      var t := X[|X| - 1] / 2;
      XorAssoc(X[i], X[i - 1], Xor(X[i - 1], t));
      XorCancels(X[i - 1], t);
    }
  }

  lemma EncodeDecode(X: Point)
    requires |X| >= 1
    ensures GrayEncode(GrayDecode(X)) == X
  {
    var last := X[|X| - 1];
    RunningOfDecoded(X, |X| - 1);
    PrefixXorUndoesGray(last);
    forall i | 0 <= i < |X|
      ensures GrayEncode(GrayDecode(X))[i] == X[i]
    {
      RunningOfDecoded(X, i);
      XorCancels(X[i], last / 2);
    }
  }

  lemma XorSharedMask(x: nat, s: nat, t: nat)
    ensures Xor(Xor(Xor(x, s), t), Xor(s, t)) == x
  {
    XorAssoc(x, s, t);
    XorCancels(x, Xor(s, t));
  }

  lemma DecodedFirst(Y: Point, t: nat)
    requires |Y| >= 1 && Y[|Y| - 1] / 2 == t
    ensures GrayDecode(Y)[0] == Xor(Y[0], t)
  {
  }

  lemma DecodeMaskedFirst(X: Point, t: nat)
    requires |X| >= 1 && Xor(Running(X, |X| - 1), t) / 2 == t
    ensures GrayDecode(Masked(X, t))[0] == X[0]
  {
    DecodedFirst(Masked(X, t), t);
    XorCancels(X[0], t);
  }

  lemma DecodeMaskedNext(X: Point, t: nat, i: nat)
    requires 1 <= i < |X|
    ensures GrayDecode(Masked(X, t))[i] == X[i]
  {
    XorSharedMask(X[i], Running(X, i - 1), t);
  }

  lemma DecodeMasked(X: Point, t: nat)
    requires |X| >= 1 && Xor(Running(X, |X| - 1), t) / 2 == t
    ensures GrayDecode(Masked(X, t)) == X
  {
    var Y := GrayDecode(Masked(X, t));
    assert |Y| == |X|;
    forall i | 0 <= i < |X|
      ensures Y[i] == X[i]
    {
      if i == 0 {
        DecodeMaskedFirst(X, t);
      } else {
        DecodeMaskedNext(X, t, i);
      }
    }
  }

  lemma XorSolve(x: nat, y: nat, z: nat)
    requires Xor(x, y) == z
    ensures Xor(z, y) == x
  {
    XorCancels(x, y);
  }

  lemma DecodeEncode(X: Point)
    requires |X| >= 1
    ensures GrayDecode(GrayEncode(X)) == X
  {
    var r := Running(X, |X| - 1);
    var t := PrefixXor(r) / 2;
    assert Xor(r, t) / 2 == t by {
      GrayUndoesPrefixXor(r);
      XorSolve(PrefixXor(r), t, r);
    }
    DecodeMasked(X, t);
  }

  /** TransposetoAxes after AxestoTranspose is the identity. */
  lemma AxesOfTransposed(X: Point, b: nat)
    requires |X| >= 1
    ensures Axes(Transposed(X, b), b) == X
  {
    DecodeEncode(Redo(X, b));
    UndoRedo(X, b);
  }

  /** AxestoTranspose after TransposetoAxes is the identity. */
  lemma TransposedOfAxes(X: Point, b: nat)
    requires |X| >= 1
    ensures Transposed(Axes(X, b), b) == X
  {
    RedoUndo(GrayDecode(X), b);
    EncodeDecode(X);
  }
}
