/** The curve by recursion on the number of bits, from the integer alone: which of
    the 2^n subcubes of side 2^(b-1) the leading n bits select, and which axes of
    the smaller curve are exchanged and mirrored in it.  The transforms of skilling.c
    compute this curve. */
module HilbertRecursion {
  import opened Bits
  import opened Hilbert
  import opened HilbertIndex
  import opened HilbertCurve
  import opened HilbertNesting

  // ---- the reference curve ------------------------------------------------

  /** The subcube that is visited as number w: for every axis, whether it is in the
      upper half.  Successive subcubes follow the Gray code. */
  function Corner(w: nat, n: nat): (up: seq<bool>)
    ensures |up| == n
    ensures forall a | 0 <= a < n :: up[a] == (Bit(w, n - 1 - a) != Bit(w, n - a))
  {
    seq(n, a requires 0 <= a < n => Bit(w, n - 1 - a) != Bit(w, n - a))
  }

  /** The first axis from i on in whose lower half the subcube is; n if there is none. */
  function NextLower(up: seq<bool>, i: nat): (s: nat)
    requires i <= |up|
    ensures i <= s <= |up| && (s < |up| ==> !up[s])
    ensures forall j | i <= j < s :: up[j]
    decreases |up| - i
  {
    if i == |up| || !up[i] then i else NextLower(up, i + 1)
  }

  /** The axis of the smaller curve that runs along axis a.  Axis 0 and the axes of the
      lower halves are shifted in a cycle; the others stay. */
  function Source(up: seq<bool>, a: nat): (c: nat)
    requires a < |up|
    ensures c < |up|
  {
    var s := NextLower(up, a + 1);
    if a > 0 && up[a] then a else if s == |up| then 0 else s
  }

  predicate Odd(x: nat) {
    x % 2 == 1
  }

  /** Whether it runs backwards: a shifted axis is mirrored once for every axis it
      passes over, axis 0 once more in the upper half of axis 0, and what comes from
      axis 0 once more in every other subcube. */
  predicate Mirrored(up: seq<bool>, odd: bool, a: nat)
    requires a < |up|
  {
    var s := NextLower(up, a + 1);
    && !(a > 0 && up[a])
    && Odd(s - a - 1 + Num(a == 0 && up[0]) + Num(s == |up| && odd))
  }

  /** The leading bits of an index, from position m on, and the others. */
  function Leading(h: nat, m: nat): nat {
    ShrIsDivision(h, m);
    h / Pow2(m)
  }

  function Trailing(h: nat, m: nat): nat {
    h % Pow2(m)
  }

  predicate AllBelow(L: Point, k: nat) {
    forall a | 0 <= a < |L| :: L[a] < Pow2(k)
  }

  function Mirror(v: nat, backwards: bool, k: nat): (r: nat)
    requires v < Pow2(k)
    ensures r < Pow2(k)
  {
    if backwards then Pow2(k) - 1 - v else v
  }

  /** Coordinate a of the point Q of the smaller curve, in subcube w. */
  function Placed(Q: Point, w: nat, k: nat, a: nat): (r: nat)
    requires a < |Q| && AllBelow(Q, k)
    ensures r < Pow2(k + 1)
  {
    var up := Corner(w, |Q|);
    (if up[a] then Pow2(k) else 0) + Mirror(Q[Source(up, a)], Mirrored(up, Odd(w), a), k)
  }

  /** The point of index h on the curve of b bits in n dimensions. */
  function Curve(h: nat, b: nat, n: nat): (P: Point)
    ensures |P| == n && AllBelow(P, b)
    decreases b
  {
    if b == 0 then seq(n, _ => 0)
    else
      var m := Size(n, b - 1);
      var w, Q := Leading(h, m), Curve(Trailing(h, m), b - 1, n);
      seq(n, a requires 0 <= a < n => Placed(Q, w, b - 1, a))
  }

  // ---- low parts of words -------------------------------------------------

  function Lows(X: Point, k: nat): (L: Point)
    ensures |L| == |X|
    ensures forall a | 0 <= a < |X| :: L[a] == Low(X[a], k)
  {
    seq(|X|, a requires 0 <= a < |X| => Low(X[a], k))
  }

  /** Bit k of every word. */
  function Ups(X: Point, k: nat): (up: seq<bool>)
    ensures |up| == |X|
    ensures forall a | 0 <= a < |X| :: up[a] == Bit(X[a], k)
  {
    seq(|X|, a requires 0 <= a < |X| => Bit(X[a], k))
  }

  lemma {:induction false} LowBound(x: nat, k: nat)
    ensures Low(x, k) < Pow2(k)
  {
    if k > 0 { LowBound(x / 2, k - 1); }
  }

  lemma {:induction false} BitOfLow(x: nat, k: nat, j: nat)
    ensures Bit(Low(x, k), j) == (j < k && Bit(x, j))
  {
    if k == 0 {
      BitOfZero(j);
    } else if j > 0 {
      MixHalves(0, x, k);
      BitOfLow(x / 2, k - 1, j - 1);
    } else {
      MixHalves(0, x, k);
    }
  }

  lemma {:induction false} LowOfFlip(x: nat, j: nat, k: nat)
    requires j <= k
    ensures Low(Flip(x, j), k) == Flip(Low(x, k), j)
  {
    if j > 0 { LowOfFlip(x / 2, j - 1, k - 1); }
  }

  lemma {:induction false} LowOfMix(x: nat, y: nat, j: nat, k: nat)
    requires j <= k
    ensures Low(Mix(x, y, j), k) == Mix(Low(x, k), Low(y, k), j)
  {
    if j > 0 {
      LowOfMix(x / 2, y / 2, j - 1, k - 1);
      MixHalves(x, y, j);
    }
  }

  /** Inverting k bits mirrors their value. */
  lemma {:induction false} FlipMirrors(x: nat, k: nat)
    ensures Low(Flip(x, k), k) == Pow2(k) - 1 - Low(x, k)
  {
    if k > 0 { FlipMirrors(x / 2, k - 1); }
  }

  /** A word of k+1 bits is its top bit and the rest. */
  lemma {:induction false} TopAndLow(x: nat, k: nat)
    requires x < 2 * Pow2(k)
    ensures x == (if Bit(x, k) then Pow2(k) else 0) + Low(x, k)
  {
    if k > 0 {
      TopAndLow(x / 2, k - 1);
      MixHalves(0, x, k);
    }
  }

  lemma {:induction false} LowIsRemainder(x: nat, k: nat)
    ensures x == Shr(x, k) * Pow2(k) + Low(x, k)
    ensures Low(x, k) == x % Pow2(k)
  {
    if k > 0 {
      LowIsRemainder(x / 2, k - 1);
      DoubleProduct(Shr(x, k), Pow2(k - 1));
    }
    LowBound(x, k);
    RemainderIsUnique(x, Pow2(k), Shr(x, k), Low(x, k));
  }

  lemma {:induction false} RemainderIsUnique(x: nat, d: nat, q: nat, r: nat)
    requires x == q * d + r && r < d
    ensures x % d == r
  {
    assert (q + 1) * d == q * d + d;
    DivisionIsUnique(x, d, q);
    assert x == x / d * d + x % d;
  }

  // ---- the levels below k work on the low parts alone ---------------------

  lemma {:induction false} LowsOfTwist(X: Point, i: nat, j: nat, k: nat)
    requires i < |X| && j < k
    ensures Lows(Twist(X, i, j), k) == Twist(Lows(X, k), i, j)
    ensures Ups(Twist(X, i, j), k) == Ups(X, k)
  {
    BitOfLow(X[i], k, j);
    LowOfFlip(X[0], j, k);
    LowOfMix(X[0], X[i], j, k);
    LowOfMix(X[i], X[0], j, k);
    HighBitsKept(X[0], X[i], j, k);
    HighBitsKept(X[i], X[0], j, k);
  }

  lemma {:induction false} LowsOfLevel(X: Point, i: nat, j: nat, k: nat)
    requires i <= |X| && j < k
    ensures Lows(UndoFrom(X, i, j), k) == UndoFrom(Lows(X, k), i, j)
    ensures Ups(UndoFrom(X, i, j), k) == Ups(X, k)
    decreases |X| - i
  {
    if i < |X| {
      LowsOfLevel(X, i + 1, j, k);
      LowsOfTwist(UndoFrom(X, i + 1, j), i, j, k);
    }
  }

  lemma {:induction false} LowsOfUndo(X: Point, j: nat, k: nat)
    requires j <= k
    ensures Lows(Undo(X, j), k) == Undo(Lows(X, k), j)
    ensures Ups(Undo(X, j), k) == Ups(X, k)
  {
    if j > 1 {
      LowsOfUndo(X, j - 1, k);
      LowsOfLevel(Undo(X, j - 1), 0, j - 1, k);
    }
  }

  // ---- a level exchanges and mirrors low parts ----------------------------

  /** A step on the low parts, with the bit that controls it. */
  function Turn(L: Point, i: nat, up: bool, k: nat): (M: Point)
    requires i < |L| && L[0] < Pow2(k)
    ensures |M| == |L|
  {
    if up then L[0 := Mirror(L[0], true, k)] else L[0 := L[i]][i := L[0]]
  }

  /** The steps on axes n-1, ..., i. */
  function TurnFrom(L: Point, up: seq<bool>, i: nat, k: nat): (M: Point)
    requires i <= |L| == |up| && AllBelow(L, k)
    ensures |M| == |L| && AllBelow(M, k)
    decreases |L| - i
  {
    if i == |L| then L else Turn(TurnFrom(L, up, i + 1, k), i, up[i], k)
  }

  lemma {:induction false} LowsBelow(X: Point, k: nat)
    ensures AllBelow(Lows(X, k), k)
  {
    forall a | 0 <= a < |X|
      ensures Lows(X, k)[a] < Pow2(k)
    {
      LowBound(X[a], k);
    }
  }

  lemma {:induction false} TwistIsTurn(X: Point, i: nat, k: nat)
    requires i < |X| && AllBelow(Lows(X, k), k)
    ensures Lows(Twist(X, i, k), k) == Turn(Lows(X, k), i, Bit(X[i], k), k)
    ensures Ups(Twist(X, i, k), k) == Ups(X, k)
  {
    FlipMirrors(X[0], k);
    LowOfMixed(X[0], X[i], k);
    LowOfMixed(X[i], X[0], k);
    HighBitsKept(X[0], X[i], k, k);
    HighBitsKept(X[i], X[0], k, k);
  }

  lemma {:induction false} LevelIsTurns(X: Point, i: nat, k: nat)
    requires i <= |X| && AllBelow(Lows(X, k), k)
    ensures Lows(UndoFrom(X, i, k), k) == TurnFrom(Lows(X, k), Ups(X, k), i, k)
    ensures Ups(UndoFrom(X, i, k), k) == Ups(X, k)
    decreases |X| - i
  {
    if i < |X| {
      LevelIsTurns(X, i + 1, k);
      var Y := UndoFrom(X, i + 1, k);
      TwistIsTurn(Y, i, k);
      assert Bit(Y[i], k) == Ups(Y, k)[i];
    }
  }

  /** What has arrived on axis 0 when the steps down to axis i are done. */
  function Arrived(L: Point, up: seq<bool>, i: nat, k: nat): (r: nat)
    requires 1 <= i <= |L| == |up| && AllBelow(L, k)
    ensures r < Pow2(k)
  {
    var s := NextLower(up, i);
    Mirror(L[if s == |up| then 0 else s], Odd(s - i), k)
  }

  lemma ArrivedNext(L: Point, up: seq<bool>, i: nat, k: nat)
    requires 1 <= i < |L| == |up| && AllBelow(L, k)
    ensures Arrived(L, up, i, k) == if up[i] then Mirror(Arrived(L, up, i + 1, k), true, k) else L[i]
  {
    assert Odd(NextLower(up, i) - i) == if up[i] then !Odd(NextLower(up, i + 1) - (i + 1)) else false;
  }

  /** The steps down to axis i, in closed form. */
  lemma {:induction false} TurnsAre(L: Point, up: seq<bool>, i: nat, k: nat)
    requires 1 <= i <= |L| == |up| && AllBelow(L, k)
    ensures var M := TurnFrom(L, up, i, k);
            && M[0] == Arrived(L, up, i, k)
            && (forall a | 1 <= a < i :: M[a] == L[a])
            && forall a | i <= a < |L| :: M[a] == if up[a] then L[a] else Arrived(L, up, a + 1, k)
    decreases |L| - i
  {
    if i < |L| {
      TurnsAre(L, up, i + 1, k);
      ArrivedNext(L, up, i, k);
      hide Arrived, Pow2;
    }
  }

  lemma MirrorTwice(v: nat, x: bool, y: bool, k: nat)
    requires v < Pow2(k)
    ensures Mirror(Mirror(v, x, k), y, k) == Mirror(v, x != y, k)
  {
  }

  /** A whole level. */
  lemma LevelIs(L: Point, up: seq<bool>, k: nat, a: nat)
    requires a < |L| == |up| && AllBelow(L, k)
    ensures TurnFrom(L, up, 0, k)[a] == if a == 0 then Mirror(Arrived(L, up, 1, k), up[0], k)
                                        else if up[a] then L[a] else Arrived(L, up, a + 1, k)
  {
    TurnsAre(L, up, 1, k);
    hide Arrived, Pow2;
    var M := TurnFrom(L, up, 1, k);
    assert TurnFrom(L, up, 0, k) == Turn(M, 0, up[0], k);
  }

  /** A whole level, on a point that is mirrored on axis 0 first if w is odd. */
  lemma {:induction false} LevelPlaces(Q: Point, w: nat, k: nat, a: nat)
    requires a < |Q| && AllBelow(Q, k)
    ensures var up, L := Corner(w, |Q|), Q[0 := Mirror(Q[0], Odd(w), k)];
            AllBelow(L, k) && (if up[a] then Pow2(k) else 0) + TurnFrom(L, up, 0, k)[a] == Placed(Q, w, k, a)
  {
    hide Arrived, Odd, NextLower, Pow2, TurnFrom, Corner, Mirror;
    var up, L := Corner(w, |Q|), Q[0 := Mirror(Q[0], Odd(w), k)];
    LevelIs(L, up, k, a);
    var s := NextLower(up, a + 1);
    if a == 0 {
      OddSum(s - 1, up[0], s == |up| && Odd(w));
      ArrivedThere(Q, up, Odd(w), 1, k);
      MirrorTwice(Q[Source(up, 0)], Odd(s - 1) != (s == |up| && Odd(w)), up[0], k);
    } else if up[a] {
      assert Mirror(Q[a], false, k) == Q[a] by { MirrorNot(Q[a], k); }
    } else {
      OddSum(s - a - 1, false, s == |up| && Odd(w));
      ArrivedThere(Q, up, Odd(w), a + 1, k);
    }
  }

  lemma MirrorNot(v: nat, k: nat)
    requires v < Pow2(k)
    ensures Mirror(v, false, k) == v
  {
  }

  lemma OddSum(x: nat, p: bool, q: bool)
    ensures Odd(x + Num(p) + Num(q)) == ((Odd(x) != q) != p)
  {
  }

  lemma ArrivedThere(Q: Point, up: seq<bool>, odd: bool, i: nat, k: nat)
    requires 1 <= i <= |Q| == |up| && AllBelow(Q, k)
    ensures var s := NextLower(up, i);
            Arrived(Q[0 := Mirror(Q[0], odd, k)], up, i, k)
            == Mirror(Q[if s == |up| then 0 else s], Odd(s - i) != (s == |up| && odd), k)
  {
    var s := NextLower(up, i);
    if s == |up| { MirrorTwice(Q[0], odd, Odd(s - i), k); }
  }

  // ---- an odd number mirrors axis 0 ---------------------------------------

  lemma {:induction false} TurnsIgnoreFirst(L: Point, up: seq<bool>, up': seq<bool>, i: nat, k: nat)
    requires 1 <= i <= |L| == |up| == |up'| && AllBelow(L, k)
    requires forall a | 1 <= a < |up| :: up[a] == up'[a]
    ensures TurnFrom(L, up, i, k) == TurnFrom(L, up', i, k)
    decreases |L| - i
  {
    if i < |L| { TurnsIgnoreFirst(L, up, up', i + 1, k); }
  }

  /** A level whose control bit on axis 0 is inverted mirrors axis 0. */
  lemma {:induction false} LevelMirrors(X: Point, Y: Point, k: nat)
    requires |X| == |Y| >= 1 && Lows(X, k) == Lows(Y, k)
    requires forall a | 0 <= a < |X| :: Bit(X[a], k) == Bit(Y[a], k) <==> a != 0
    ensures forall a | 1 <= a < |X| :: Low(UndoFrom(X, 0, k)[a], k) == Low(UndoFrom(Y, 0, k)[a], k)
    ensures Low(UndoFrom(X, 0, k)[0], k) == Pow2(k) - 1 - Low(UndoFrom(Y, 0, k)[0], k)
    ensures Ups(UndoFrom(X, 0, k), k) == Ups(X, k) && Ups(UndoFrom(Y, 0, k), k) == Ups(Y, k)
  {
    var L, up, up' := Lows(X, k), Ups(X, k), Ups(Y, k);
    LowsBelow(X, k);
    LevelIsTurns(X, 0, k);
    LevelIsTurns(Y, 0, k);
    TurnsIgnoreFirst(L, up, up', 1, k);
    var M := TurnFrom(L, up, 1, k);
    assert Lows(UndoFrom(X, 0, k), k) == Turn(M, 0, up[0], k);
    assert Lows(UndoFrom(Y, 0, k), k) == Turn(M, 0, up'[0], k);
  }

  /** Undo ends with the level k = m - 1, also for a single bit. */
  lemma {:induction false} LastLevel(X: Point, m: nat)
    requires m >= 1
    ensures Undo(X, m) == UndoFrom(Undo(X, m - 1), 0, m - 1)
  {
    if m == 1 { LevelZeroIsIdle(X, 0); }
  }

  /** G and K differ in the top bit of axis 0 only. */
  ghost predicate TopDiffers(G: Point, K: Point, m: nat) {
    && m >= 1 && |G| == |K| && InCube(G, m) && InCube(K, m)
    && forall a, j | 0 <= a < |G| && 0 <= j < m :: Bit(G[a], j) == Bit(K[a], j) <==> !(a == 0 && j == m - 1)
  }

  lemma {:induction false} SameLow(x: nat, y: nat, k: nat)
    requires forall j | 0 <= j < k :: Bit(x, j) == Bit(y, j)
    ensures Low(x, k) == Low(y, k)
  {
    LowBound(x, k);
    LowBound(y, k);
    forall j | 0 <= j < k
      ensures Bit(Low(x, k), j) == Bit(Low(y, k), j)
    {
      BitOfLow(x, k, j);
      BitOfLow(y, k, j);
    }
    SameBits(Low(x, k), Low(y, k), k);
  }

  lemma {:induction false} TopMirrors(G: Point, K: Point, m: nat)
    requires TopDiffers(G, K, m)
    ensures InCube(Undo(K, m), m)
    ensures Undo(G, m) == Undo(K, m)[0 := Mirror(Undo(K, m)[0], true, m)]
  {
    var k := m - 1;
    var X, Y := Undo(G, k), Undo(K, k);
    LowsOfUndo(G, k, k);
    LowsOfUndo(K, k, k);
    forall a | 0 <= a < |G|
      ensures Low(G[a], k) == Low(K[a], k)
      ensures Bit(X[a], k) == Bit(Y[a], k) <==> a != 0
    {
      SameLow(G[a], K[a], k);
      assert Ups(X, k)[a] == Ups(G, k)[a] && Ups(Y, k)[a] == Ups(K, k)[a];
    }
    assert Lows(G, k) == Lows(K, k);
    LevelMirrors(X, Y, k);
    LastLevel(G, m);
    LastLevel(K, m);
    UndoInCube(G, m, m);
    UndoInCube(K, m, m);
    forall a | 0 <= a < |G|
      ensures Undo(G, m)[a] == if a == 0 then Pow2(m) - 1 - Undo(K, m)[a] else Undo(K, m)[a]
    {
      TopAndLow(Undo(G, m)[a], k);
      TopAndLow(Undo(K, m)[a], k);
      assert Ups(Undo(G, m), k)[a] == Bit(X[a], k) && Ups(Undo(K, m), k)[a] == Bit(Y[a], k);
    }
  }

  // ---- the bits of the Gray code ------------------------------------------

  /** Bits of the Gray code of index h, by position. */
  lemma {:induction false} GrayOfSpread(h: nat, b: nat, n: nat, p: nat)
    requires n >= 1 && h < Pow2(Size(n, b)) && p < Size(n, b)
    ensures FlatBit(GrayDecode(Spread(h, b, n)), p) == (Bit(h, p) != Bit(h, p + 1))
  {
    var X := Spread(h, b, n);
    GrayBit(X, p);
    SpreadBit(h, b, n, p);
    if p + 1 < Size(n, b) {
      SpreadBit(h, b, n, p + 1);
    } else {
      SpreadInCube(h, b, n);
      TopBits(X, b, p + 1);
      NoHighBits(h, Size(n, b), p + 1);
    }
  }

  lemma {:induction false} GrayOfSpreadAt(h: nat, b: nat, n: nat, a: nat, j: nat)
    requires a < n && j < b && h < Pow2(Size(n, b))
    ensures Bit(GrayDecode(Spread(h, b, n))[a], j) == (Bit(h, Position(n, j, a)) != Bit(h, Position(n, j, a) + 1))
  {
    hide Bit, GrayDecode, Spread, Pow2, Leading;
    var p := Position(n, j, a);
    FlatPosition(n, j, a);
    PositionInRange(n, b, p);
    GrayOfSpread(h, b, n, p);
    FlatBitAt(GrayDecode(Spread(h, b, n)), j, a);
  }

  /** The leading n bits of h, and the others. */
  lemma {:induction false} SplitIndex(h: nat, b: nat, n: nat, p: nat)
    requires n >= 1 && b >= 1 && h < Pow2(Size(n, b))
    ensures var m := Size(n, b - 1);
            && Trailing(h, m) < Pow2(m)
            && Bit(Leading(h, m), p) == Bit(h, m + p)
            && Bit(Trailing(h, m), p) == (p < m && Bit(h, p))
  {
    var m := Size(n, b - 1);
    ShrIsDivision(h, m);
    BitShr(h, m, p);
    LowIsRemainder(h, m);
    BitOfLow(h, m, p);
  }

  lemma TopPosition(n: nat, b: nat, a: nat)
    requires a < n && b >= 1
    ensures Position(n, b - 1, a) == Size(n, b - 1) + (n - 1 - a)
  {
  }

  lemma {:induction false} TopGray(h: nat, b: nat, n: nat)
    requires n >= 1 && b >= 1 && h < Pow2(Size(n, b))
    ensures Ups(GrayDecode(Spread(h, b, n)), b - 1) == Corner(Leading(h, Size(n, b - 1)), n)
  {
    hide Bit, GrayDecode, Spread, Pow2, Leading;
    var G, w := GrayDecode(Spread(h, b, n)), Leading(h, Size(n, b - 1));
    forall a | 0 <= a < n
      ensures Bit(G[a], b - 1) == (Bit(w, n - 1 - a) != Bit(w, n - a))
    {
      GrayOfSpreadAt(h, b, n, a, b - 1);
      TopPosition(n, b, a);
      SplitIndex(h, b, n, n - 1 - a);
      SplitIndex(h, b, n, n - a);
    }
  }

  /** Below the top level, the Gray code is that of the remainder, except for the top
      bit of axis 0 when the leading n bits are odd. */
  lemma {:induction false} LowGray(h: nat, b: nat, n: nat, a: nat, j: nat)
    requires a < n && j < b - 1 && h < Pow2(Size(n, b))
    ensures var m := Size(n, b - 1);
            Bit(GrayDecode(Spread(h, b, n))[a], j) == Bit(GrayDecode(Spread(Trailing(h, m), b - 1, n))[a], j)
            <==> !(a == 0 && j == b - 2 && Odd(Leading(h, m)))
  {
    hide GrayDecode, Spread, Pow2;
    var m := Size(n, b - 1);
    var p := Position(n, j, a);
    SplitIndex(h, b, n, p);
    SplitIndex(h, b, n, p + 1);
    SplitIndex(h, b, n, 0);
    GrayOfSpreadAt(h, b, n, a, j);
    GrayOfSpreadAt(Trailing(h, m), b - 1, n, a, j);
    LastPosition(n, b - 1, j, a);
    FlatPosition(n, j, a);
    PositionInRange(n, b - 1, p);
  }

  /** The low parts of the Gray code lead to the smaller curve, mirrored on axis 0 when
      the leading n bits are odd. */
  lemma {:induction false} LowerLevels(h: nat, b: nat, n: nat)
    requires n >= 1 && b >= 1 && h < Pow2(Size(n, b))
    ensures var m := Size(n, b - 1);
            var Q := PointAt(Trailing(h, m), b - 1, n);
            && InCube(Q, b - 1)
            && Lows(Undo(GrayDecode(Spread(h, b, n)), b - 1), b - 1)
               == Q[0 := Mirror(Q[0], Odd(Leading(h, m)), b - 1)]
  {
    hide GrayDecode, Spread, Undo, UndoFrom, Bit, Size, Low, Leading, Trailing;
    var m, low, odd := b - 1, Trailing(h, Size(n, b - 1)), Odd(Leading(h, Size(n, b - 1)));
    var G, K := GrayDecode(Spread(h, b, n)), GrayDecode(Spread(low, m, n));
    SpreadInCube(low, m, n);
    GrayDecodeInCube(Spread(low, m, n), m);
    UndoInCube(K, m, m);
    LowsOfUndo(G, m, m);
    LowsBelow(G, m);
    var L := Lows(G, m);
    forall a, j | 0 <= a < n && 0 <= j < m
      ensures Bit(L[a], j) == Bit(K[a], j) <==> !(a == 0 && j == m - 1 && odd)
    {
      LowGray(h, b, n, a, j);
      BitOfLow(G[a], m, j);
    }
    var Q := Undo(K, m);
    if odd && m >= 1 {
      TopMirrors(L, K, m);
    } else {
      forall a | 0 <= a < n
        ensures L[a] == K[a]
      {
        SameBits(L[a], K[a], m);
      }
      assert L == K && Q[0 := Q[0]] == Q;
      assert Mirror(Q[0], odd, m) == Q[0];
    }
  }

  // ---- the main results ---------------------------------------------------

  /** One step of the recursion: the curve of b bits runs through the subcubes in the
      order of Corner, each time along the curve of b-1 bits. */
  lemma CurveIsSelfSimilar(h: nat, b: nat, n: nat, a: nat)
    requires a < n && b >= 1 && h < Pow2(Size(n, b))
    ensures var m := Size(n, b - 1);
            var Q := PointAt(Trailing(h, m), b - 1, n);
            InCube(Q, b - 1) && PointAt(h, b, n)[a] == Placed(Q, Leading(h, m), b - 1, a)
  {
    hide GrayDecode, Spread, Undo, UndoFrom, Bit, TurnFrom, Placed, Size, Low, Leading, Trailing, Corner, Mirror;
    var k, w := b - 1, Leading(h, Size(n, b - 1));
    var Q := PointAt(Trailing(h, Size(n, b - 1)), k, n);
    var G := GrayDecode(Spread(h, b, n));
    var X := Undo(G, k);
    LowerLevels(h, b, n);
    TopGray(h, b, n);
    LowsOfUndo(G, k, k);
    LowsBelow(X, k);
    LevelIsTurns(X, 0, k);
    LastLevel(G, b);
    IntegerOfPoint(h, b, n);
    var P := PointAt(h, b, n);
    TopAndLow(P[a], k);
    assert Bit(P[a], k) == Ups(P, k)[a] == Corner(w, n)[a];
    LevelPlaces(Q, w, k, a);
  }

  lemma SinglePoint(h: nat, n: nat)
    requires n >= 1 && h < Pow2(Size(n, 0))
    ensures PointAt(h, 0, n) == Curve(h, 0, n)
  {
    hide PointAt;
    assert Size(n, 0) == 0 && h == 0;
    CurveStartsAtOrigin(0, n);
  }

  /** The transforms compute the reference curve. */
  lemma {:induction false} PointIsOnCurve(h: nat, b: nat, n: nat)
    requires n >= 1 && h < Pow2(Size(n, b))
    ensures PointAt(h, b, n) == Curve(h, b, n)
    decreases b
  {
    hide PointAt, Placed, Size, Leading, Trailing, Pow2;
    if b == 0 {
      SinglePoint(h, n);
    } else {
      SplitIndex(h, b, n, 0);
      PointIsOnCurve(Trailing(h, Size(n, b - 1)), b - 1, n);
      forall a | 0 <= a < n
        ensures PointAt(h, b, n)[a] == Curve(h, b, n)[a]
      {
        CurveIsSelfSimilar(h, b, n, a);
      }
    }
  }

  /** TransposetoAxes, in terms of the curve. */
  lemma AxesAreOnCurve(X: Point, b: nat)
    requires InCube(X, b)
    ensures Axes(X, b) == Curve(Index(X, b), b, |X|)
  {
    IndexBound(X, b);
    SpreadOfIndex(X, b);
    PointIsOnCurve(Index(X, b), b, |X|);
  }

  /** AxestoTranspose gives the only index at which the curve comes to the point. */
  lemma TransposedIsOnCurve(X: Point, b: nat, h: nat)
    requires InCube(X, b) && h < Pow2(Size(|X|, b))
    ensures Curve(h, b, |X|) == X <==> h == Index(Transposed(X, b), b)
  {
    PointIsOnCurve(h, b, |X|);
    PointOfInteger(X, b);
    IntegerOfPoint(h, b, |X|);
  }

  /** The order of the subcubes, in bits of the index. */
  lemma {:induction false} SubcubeOrder(h: nat, b: nat, n: nat, a: nat)
    requires a < n && b >= 1 && h < Pow2(Size(n, b))
    ensures var m := Size(n, b - 1);
            Bit(PointAt(h, b, n)[a], b - 1) == (Bit(h, m + (n - 1 - a)) != Bit(h, m + (n - a)))
  {
    hide GrayDecode, Spread, Pow2, Undo, UndoFrom, Bit;
    GrayOfSpreadAt(h, b, n, a, b - 1);
    TopPosition(n, b, a);
    var G := GrayDecode(Spread(h, b, n));
    LowsOfUndo(G, b - 1, b - 1);
    LowsBelow(Undo(G, b - 1), b - 1);
    LevelIsTurns(Undo(G, b - 1), 0, b - 1);
    LastLevel(G, b);
    assert Ups(PointAt(h, b, n), b - 1)[a] == Ups(G, b - 1)[a];
  }

  /** The first and the last index of subcube w. */
  function FirstIn(w: nat, m: nat): nat {
    w * Pow2(m)
  }

  function LastIn(w: nat, m: nat): nat {
    w * Pow2(m) + (Pow2(m) - 1)
  }

  lemma BlockEnds(w: nat, m: nat)
    ensures Leading(FirstIn(w, m), m) == w == Leading(LastIn(w, m), m)
    ensures Trailing(FirstIn(w, m), m) == 0 && Trailing(LastIn(w, m), m) == Pow2(m) - 1
  {
    var d := Pow2(m);
    assert (w + 1) * d == w * d + d;
    DivisionIsUnique(w * d, d, w);
    DivisionIsUnique(w * d + (d - 1), d, w);
    RemainderIsUnique(w * d, d, w, 0);
    RemainderIsUnique(w * d + (d - 1), d, w, d - 1);
  }

  lemma BlockInRange(w: nat, b: nat, n: nat)
    requires b >= 1 && w < Pow2(n)
    ensures FirstIn(w, Size(n, b - 1)) <= LastIn(w, Size(n, b - 1)) < Pow2(Size(n, b))
  {
    hide Pow2;
    var m := Size(n, b - 1);
    SizeSplits(n, b, 1);
    Pow2Sum(m, n);
    MultiplesAreOrdered(w + 1, Pow2(n), Pow2(m));
    assert (w + 1) * Pow2(m) == w * Pow2(m) + Pow2(m);
  }

  /** Where subcube w is entered and left: at the corner that Mirrored names, and at its
      neighbour along the axis that axis 0 of the smaller curve runs along. */
  lemma SubcubeEnds(w: nat, b: nat, n: nat, a: nat)
    requires a < n && b >= 1 && w < Pow2(n)
    ensures var m, s, up := Size(n, b - 1), Pow2(b - 1), Corner(w, n);
            && PointAt(FirstIn(w, m), b, n)[a]
               == (if up[a] then s else 0) + (if Mirrored(up, Odd(w), a) then s - 1 else 0)
            && PointAt(LastIn(w, m), b, n)[a]
               == (if up[a] then s else 0)
                  + (if Mirrored(up, Odd(w), a) != (Source(up, a) == 0) then s - 1 else 0)
  {
    hide PointAt, Pow2, Mirrored, Source, Size, FirstIn, LastIn, Leading, Trailing;
    var m := Size(n, b - 1);
    BlockEnds(w, m);
    BlockInRange(w, b, n);
    CurveIsSelfSimilar(FirstIn(w, m), b, n, a);
    CurveIsSelfSimilar(LastIn(w, m), b, n, a);
    CurveStartsAtOrigin(b - 1, n);
    var c := Source(Corner(w, n), a);
    if b > 1 {
      CurveEndsAtCorner(b - 1, n, c);
    } else {
      assert Pow2(0) == 1 by { Pow2Zero(); }
    }
  }

  lemma Pow2Zero()
    ensures Pow2(0) == 1
  {
  }

  lemma {:induction false} Pow2Sum(j: nat, k: nat)
    ensures Pow2(j + k) == Pow2(k) * Pow2(j)
  {
    if k > 0 {
      Pow2Sum(j, k - 1);
      assert Pow2(j + k) == 2 * Pow2(j + (k - 1));
      assert 2 * (Pow2(k - 1) * Pow2(j)) == 2 * Pow2(k - 1) * Pow2(j);
    }
  }
}
