/** Bit arithmetic on unsigned words, as the C operators of skilling.c compute it.
    Every operator is defined from the least significant bit upwards, so that
    proofs about words are inductions that drop one bit at a time. */
module Bits {

  /** The 32-bit `coord_t` of the source. */
  type Word = x: nat | x < 0x1_0000_0000

  function Pow2(k: nat): (r: nat)
    ensures r >= 1
  {
    if k == 0 then 1 else 2 * Pow2(k - 1)
  }

  /** The C shift `x >> k`. */
  function Shr(x: nat, k: nat): nat {
    if k == 0 then x else Shr(x / 2, k - 1)
  }

  /** Bit k of x. */
  predicate Bit(x: nat, k: nat) {
    if k == 0 then x % 2 == 1 else Bit(x / 2, k - 1)
  }

  function Num(c: bool): nat {
    if c then 1 else 0
  }

  /** The C operator `x ^ y`. */
  function Xor(x: nat, y: nat): nat
    decreases x + y
  {
    if x == 0 && y == 0 then 0 else Num(x % 2 != y % 2) + 2 * Xor(x / 2, y / 2)
  }

  /** The C operator `x & y`. */
  function And(x: nat, y: nat): nat
    decreases x + y
  {
    if x == 0 && y == 0 then 0 else Num(x % 2 == 1 && y % 2 == 1) + 2 * And(x / 2, y / 2)
  }

  /** x with its k low bits inverted: a reflection of the low-order subcube. */
  function Flip(x: nat, k: nat): nat {
    if k == 0 then x else Num(x % 2 == 0) + 2 * Flip(x / 2, k - 1)
  }

  /** The high part of x above the k low bits of y. */
  function Mix(x: nat, y: nat, k: nat): nat {
    if k == 0 then x else y % 2 + 2 * Mix(x / 2, y / 2, k - 1)
  }

  // ---- shifts and single bits -------------------------------------------

  lemma {:induction false} ShrBounds(x: nat, k: nat)
    ensures Shr(x, k) * Pow2(k) <= x < Shr(x, k) * Pow2(k) + Pow2(k)
  {
    if k > 0 {
      ShrBounds(x / 2, k - 1);
      DoubleProduct(Shr(x, k), Pow2(k - 1));
    }
  }

  lemma DoubleProduct(s: nat, p: nat)
    ensures s * (2 * p) == 2 * (s * p)
  {
  }

  /** The shift is a division by a power of two. */
  lemma ShrIsDivision(x: nat, k: nat)
    ensures Shr(x, k) == x / Pow2(k)
  {
    ShrBounds(x, k);
    var s, p := Shr(x, k), Pow2(k);
    assert (s + 1) * p == s * p + p;
    DivisionIsUnique(x, p, s);
  }

  lemma DivisionIsUnique(x: nat, d: nat, q: nat)
    requires d > 0 && q * d <= x < (q + 1) * d
    ensures x / d == q
  {
    var r := x / d;
    assert r * d <= x < (r + 1) * d;
    MultiplesAreOrdered(r + 1, q, d);
    MultiplesAreOrdered(q + 1, r, d);
  }

  lemma MultiplesAreOrdered(x: nat, y: nat, d: nat)
    ensures x <= y ==> x * d <= y * d
  {
  }

  lemma {:induction false} ShrZero(x: nat, k: nat)
    requires x < Pow2(k)
    ensures Shr(x, k) == 0
  {
    if k > 0 { ShrZero(x / 2, k - 1); }
  }

  lemma {:induction false} ShrOfZero(k: nat)
    ensures Shr(0, k) == 0
  {
    if k > 0 { ShrOfZero(k - 1); }
  }

  lemma {:induction false} ShrShr(x: nat, j: nat, k: nat)
    ensures Shr(Shr(x, j), k) == Shr(x, j + k)
  {
    if j > 0 { ShrShr(x / 2, j - 1, k); }
  }

  lemma {:induction false} BitShr(x: nat, j: nat, k: nat)
    ensures Bit(Shr(x, j), k) == Bit(x, j + k)
  {
    if j > 0 { BitShr(x / 2, j - 1, k); }
  }

  lemma {:induction false} BitIsShiftedParity(x: nat, k: nat)
    ensures Bit(x, k) == (Shr(x, k) % 2 == 1)
  {
    if k > 0 { BitIsShiftedParity(x / 2, k - 1); }
  }

  lemma {:induction false} BitOfZero(k: nat)
    ensures !Bit(0, k)
  {
    if k > 0 { BitOfZero(k - 1); }
  }

  lemma {:induction false} NoHighBits(x: nat, b: nat, k: nat)
    requires x < Pow2(b) && k >= b
    ensures !Bit(x, k)
  {
    if b > 0 {
      NoHighBits(x / 2, b - 1, k - 1);
    } else {
      BitOfZero(k);
    }
  }

  lemma {:induction false} Pow2Monotone(j: nat, k: nat)
    requires j <= k
    ensures Pow2(j) <= Pow2(k)
  {
    if j < k { Pow2Monotone(j, k - 1); }
  }

  /** Words of b bits are equal when all their bits are. */
  lemma {:induction false} SameBits(x: nat, y: nat, b: nat)
    requires x < Pow2(b) && y < Pow2(b)
    requires forall k | 0 <= k < b :: Bit(x, k) == Bit(y, k)
    ensures x == y
  {
    if b > 0 {
      forall k | 0 <= k < b - 1
        ensures Bit(x / 2, k) == Bit(y / 2, k)
      {
        assert Bit(x, k + 1) == Bit(y, k + 1);
      }
      SameBits(x / 2, y / 2, b - 1);
      assert Bit(x, 0) == Bit(y, 0);
    }
  }

  // ---- exclusive or -------------------------------------------------------

  lemma XorHalves(x: nat, y: nat)
    ensures Xor(x, y) / 2 == Xor(x / 2, y / 2) && Xor(x, y) % 2 == Num(x % 2 != y % 2)
  {
  }

  lemma AndHalves(x: nat, y: nat)
    ensures And(x, y) / 2 == And(x / 2, y / 2) && And(x, y) % 2 == Num(x % 2 == 1 && y % 2 == 1)
  {
  }

  lemma {:induction false} BitXor(x: nat, y: nat, k: nat)
    ensures Bit(Xor(x, y), k) == (Bit(x, k) != Bit(y, k))
  {
    XorHalves(x, y);
    if k > 0 { BitXor(x / 2, y / 2, k - 1); }
  }

  lemma {:induction false} XorBound(x: nat, y: nat, b: nat)
    requires x < Pow2(b) && y < Pow2(b)
    ensures Xor(x, y) < Pow2(b)
  {
    if b > 0 { XorBound(x / 2, y / 2, b - 1); }
  }

  lemma {:induction false} XorCommutes(x: nat, y: nat)
    ensures Xor(x, y) == Xor(y, x)
    decreases x + y
  {
    if x + y > 0 { XorCommutes(x / 2, y / 2); }
  }

  lemma {:induction false} XorAssoc(x: nat, y: nat, z: nat)
    ensures Xor(Xor(x, y), z) == Xor(x, Xor(y, z))
    decreases x + y + z
  {
    if x + y + z > 0 {
      XorAssoc(x / 2, y / 2, z / 2);
      XorHalves(x, y);
      XorHalves(y, z);
    }
  }

  lemma {:induction false} XorZero(x: nat)
    ensures Xor(x, 0) == x == Xor(0, x)
  {
    if x > 0 { XorZero(x / 2); }
  }

  lemma {:induction false} XorSelf(x: nat)
    ensures Xor(x, x) == 0
  {
    if x > 0 { XorSelf(x / 2); }
  }

  /** Xoring the same word twice cancels. */
  lemma XorCancels(x: nat, y: nat)
    ensures Xor(Xor(x, y), y) == x
    ensures Xor(x, Xor(x, y)) == y
  {
    XorAssoc(x, y, y);
    XorSelf(y);
    XorZero(x);
    XorAssoc(x, x, y);
    XorSelf(x);
    XorZero(y);
  }

  lemma {:induction false} ShrXor(x: nat, y: nat, k: nat)
    ensures Shr(Xor(x, y), k) == Xor(Shr(x, k), Shr(y, k))
  {
    if k > 0 {
      XorHalves(x, y);
      ShrXor(x / 2, y / 2, k - 1);
    }
  }

  // ---- the masks of the source ------------------------------------------

  /** `x & Q` with Q the k-th power of two tests bit k. */
  lemma {:induction false} AndPow2(x: nat, k: nat)
    ensures And(x, Pow2(k)) != 0 <==> Bit(x, k)
  {
    if k > 0 {
      AndPow2(x / 2, k - 1);
    } else {
      AndZero(x / 2);
    }
  }

  lemma {:induction false} AndZero(x: nat)
    ensures And(x, 0) == 0
  {
    if x > 0 { AndZero(x / 2); }
  }

  /** `x ^ P` with P one less than the k-th power of two inverts k low bits. */
  lemma {:induction false} XorMask(x: nat, k: nat)
    ensures Xor(x, Pow2(k) - 1) == Flip(x, k)
  {
    if k > 0 {
      assert (Pow2(k) - 1) / 2 == Pow2(k - 1) - 1;
      XorMask(x / 2, k - 1);
    } else {
      XorZero(x);
    }
  }

  /** The exchange `t = (x ^ y) & P; x ^= t; y ^= t` swaps k low bits. */
  lemma {:induction false} XorMaskedFirst(x: nat, y: nat, k: nat)
    ensures Xor(x, And(Xor(x, y), Pow2(k) - 1)) == Mix(x, y, k)
  {
    if k > 0 {
      var p := Pow2(k) - 1;
      assert p / 2 == Pow2(k - 1) - 1 && p % 2 == 1;
      XorMaskedFirst(x / 2, y / 2, k - 1);
      AndHalves(Xor(x, y), p);
      XorHalves(x, And(Xor(x, y), p));
      XorHalves(x, y);
    } else {
      AndZero(Xor(x, y));
      XorZero(x);
    }
  }

  lemma XorMasked(x: nat, y: nat, k: nat)
    ensures Xor(x, And(Xor(x, y), Pow2(k) - 1)) == Mix(x, y, k)
    ensures Xor(y, And(Xor(x, y), Pow2(k) - 1)) == Mix(y, x, k)
  {
    XorMaskedFirst(x, y, k);
    XorMaskedFirst(y, x, k);
    XorCommutes(x, y);
  }

  // ---- reflections and exchanges of the low bits --------------------------

  lemma {:induction false} FlipFacts(x: nat, k: nat)
    ensures Flip(Flip(x, k), k) == x
    ensures Shr(Flip(x, k), k) == Shr(x, k)
  {
    if k > 0 { FlipFacts(x / 2, k - 1); }
  }

  /** Inverting low bits negates a difference confined to them. */
  lemma {:induction false} FlipDifference(x: nat, y: nat, k: nat)
    requires Shr(x, k) == Shr(y, k)
    ensures Flip(x, k) - Flip(y, k) == y - x
  {
    if k > 0 { FlipDifference(x / 2, y / 2, k - 1); }
  }

  lemma {:induction false} FlipBound(x: nat, k: nat, b: nat)
    requires x < Pow2(b) && k <= b
    ensures Flip(x, k) < Pow2(b)
  {
    if k > 0 { FlipBound(x / 2, k - 1, b - 1); }
  }

  lemma {:induction false} MixSelf(x: nat, k: nat)
    ensures Mix(x, x, k) == x
  {
    if k > 0 { MixSelf(x / 2, k - 1); }
  }

  lemma MixHalves(x: nat, y: nat, k: nat)
    requires k > 0
    ensures Mix(x, y, k) / 2 == Mix(x / 2, y / 2, k - 1) && Mix(x, y, k) % 2 == y % 2
  {
  }

  lemma {:induction false} MixIsInvolution(x: nat, y: nat, k: nat)
    ensures Mix(Mix(x, y, k), Mix(y, x, k), k) == x
  {
    if k > 0 {
      MixIsInvolution(x / 2, y / 2, k - 1);
      MixHalves(x, y, k);
      MixHalves(y, x, k);
    }
  }

  lemma {:induction false} MixKeepsHigh(x: nat, y: nat, k: nat)
    ensures Shr(Mix(x, y, k), k) == Shr(x, k)
  {
    if k > 0 {
      MixKeepsHigh(x / 2, y / 2, k - 1);
      MixHalves(x, y, k);
    }
  }

  lemma MixFacts(x: nat, y: nat, k: nat)
    ensures Mix(x, x, k) == x
    ensures Mix(Mix(x, y, k), Mix(y, x, k), k) == x
    ensures Shr(Mix(x, y, k), k) == Shr(x, k)
  {
    MixSelf(x, k);
    MixIsInvolution(x, y, k);
    MixKeepsHigh(x, y, k);
  }

  /** An exchange carries a difference confined to the low bits along. */
  lemma {:induction false} MixDifference(x: nat, y: nat, z: nat, k: nat)
    requires Shr(x, k) == Shr(y, k)
    ensures Mix(z, x, k) - Mix(z, y, k) == x - y
    ensures Mix(x, z, k) == Mix(y, z, k)
  {
    if k > 0 { MixDifference(x / 2, y / 2, z / 2, k - 1); }
  }

  lemma {:induction false} MixBound(x: nat, y: nat, k: nat, b: nat)
    requires x < Pow2(b) && y < Pow2(b) && k <= b
    ensures Mix(x, y, k) < Pow2(b)
  {
    if k > 0 { MixBound(x / 2, y / 2, k - 1, b - 1); }
  }

  /** Neither operation touches the bits from k upwards. */
  lemma HighBitsKept(x: nat, y: nat, k: nat, m: nat)
    requires m >= k
    ensures Shr(Flip(x, k), m) == Shr(x, m) && Shr(Mix(x, y, k), m) == Shr(x, m)
    ensures Bit(Flip(x, k), m) == Bit(x, m) && Bit(Mix(x, y, k), m) == Bit(x, m)
  {
    FlipFacts(x, k);
    MixFacts(x, y, k);
    ShrShr(Flip(x, k), k, m - k);
    ShrShr(Mix(x, y, k), k, m - k);
    ShrShr(x, k, m - k);
    BitIsShiftedParity(x, m);
    BitIsShiftedParity(Flip(x, k), m);
    BitIsShiftedParity(Mix(x, y, k), m);
  }

  /** Dropping j low bits of a reflection or exchange of k of them. */
  lemma {:induction false} ShrFlip(x: nat, k: nat, j: nat)
    requires j <= k
    ensures Shr(Flip(x, k), j) == Flip(Shr(x, j), k - j)
  {
    if j > 0 { ShrFlip(x / 2, k - 1, j - 1); }
  }

  lemma {:induction false} ShrMix(x: nat, y: nat, k: nat, j: nat)
    requires j <= k
    ensures Shr(Mix(x, y, k), j) == Mix(Shr(x, j), Shr(y, j), k - j)
  {
    if j > 0 {
      ShrMix(x / 2, y / 2, k - 1, j - 1);
      MixHalves(x, y, k);
    }
  }

  lemma {:induction false} Pow2Byte(k: nat)
    requires k >= 8
    ensures Pow2(k) == 256 * Pow2(k - 8)
  {
    assert Pow2(k - 4) == 16 * Pow2(k - 8) by {
      assert Pow2(k - 6) == 2 * Pow2(k - 7);
      assert Pow2(k - 4) == 2 * Pow2(k - 5);
    }
    assert Pow2(k - 2) == 2 * Pow2(k - 3);
    assert Pow2(k) == 2 * Pow2(k - 1);
  }

  lemma Pow2Of32()
    ensures Pow2(32) == 0x1_0000_0000
  {
    Pow2Byte(32);
    Pow2Byte(24);
    Pow2Byte(16);
    Pow2Byte(8);
  }

  lemma Pow2Bound(b: nat)
    requires b <= 32
    ensures Pow2(b) <= 0x1_0000_0000
  {
    Pow2Monotone(b, 32);
    Pow2Of32();
  }
}
