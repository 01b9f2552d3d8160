/** The bytes of the PMI-2 wire format, spelled out: what a frame looks like, what the
    writer answers for every message, and which bodies the reader accepts. */
module Pmi2Bytes {
  import opened Wrappers
  import Bits
  import opened Pmi2Wire
  import opened Pmi2RoundTrip
  import opened Pmi2Client

  // ---- an escaped value ---------------------------------------------------

  /** Number of `;` in v. */
  function Semicolons(v: seq<byte>): nat {
    multiset(v)[59]
  }

  lemma SemicolonsAppend(v: seq<byte>, x: byte)
    ensures Semicolons(v + [x]) == Semicolons(v) + if x == 59 then 1 else 0
  {
  }

  lemma {:induction false} EscapedLength(v: seq<byte>)
    ensures |Escape(v)| == |v| + Semicolons(v)
  {
    if v != [] {
      var front, last := v[..|v| - 1], v[|v| - 1];
      assert v == front + [last];
      EscapedLength(front);
      EscapeAppend(front, last);
      SemicolonsAppend(front, last);
    }
  }

  /** Byte i of the value stands behind the i bytes in front of it and one more for each
      of their `;`; if it is a `;` itself, it stands there twice. */
  lemma EscapedAt(v: seq<byte>, i: nat)
    requires i < |v|
    ensures |Escape(v)| == |v| + Semicolons(v)
    ensures var p := i + Semicolons(v[..i]);
            p < |Escape(v)| && Escape(v)[p] == v[i] && (v[i] == 59 ==> p + 1 < |Escape(v)| && Escape(v)[p + 1] == 59)
  {
    EscapedLength(v);
    EscapedLength(v[..i]);
    EscapePrefix(v, i + 1);
    EscapeAppend(v[..i], v[i]);
    assert v[..i] + [v[i]] == v[..i + 1];
  }

  // ---- a frame ------------------------------------------------------------

  lemma FrameBytes(cmd: seq<byte>, pairs: seq<Pair>)
    requires |Body(cmd, pairs)| < 100000
    ensures |Frame(cmd, pairs)| == 6 + |Body(cmd, pairs)|
    ensures Frame(cmd, pairs)[6..] == [99, 109, 100, 61] + cmd + [59] + PairsBytes(pairs)
  {
    assert [99, 109, 100, 61] == CMD + [EQUALS];
  }

  /** Each pair in its place: the key, a `=`, the escaped value and a `;`. */
  lemma {:induction false} PairOnWire(pairs: seq<Pair>, k: nat)
    requires k < |pairs|
    ensures PairsBytes([]) == []
    ensures PairsBytes(pairs) == PairsBytes(pairs[..k])
                                 + (pairs[k].key + [61] + Escape(pairs[k].value) + [59])
                                 + PairsBytes(pairs[k + 1..])
  {
    if k == 0 {
      assert pairs[..0] == [];
    } else {
      PairOnWire(pairs[1..], k - 1);
      assert pairs[1..][k - 1] == pairs[k] && pairs[1..][k..] == pairs[k + 1..];
      assert pairs[..k][1..] == pairs[1..][..k - 1];
      var item := pairs[k].key + [61] + Escape(pairs[k].value) + [59];
      ConcatAssociates(PairBytes(pairs[0]), PairsBytes(pairs[1..][..k - 1]), item, PairsBytes(pairs[k + 1..]));
    }
  }

  lemma ConcatAssociates(a: seq<byte>, b: seq<byte>, c: seq<byte>, d: seq<byte>)
    ensures a + (b + c + d) == a + b + c + d
  {
  }

  /** Digit i of n, of m digits. */
  function Digit(n: nat, m: nat, i: nat): nat
    requires i < m
  {
    n / Pow10(m - 1 - i) % 10
  }

  /** Decimal digits of n without leading zeros: the last is at position m - 1. */
  lemma {:induction false} DigitsAre(n: nat, i: nat)
    requires i < |Decimal(n)|
    ensures 48 <= Decimal(n)[i] <= 57
    ensures Decimal(n)[i] == 48 + Digit(n, |Decimal(n)|, i)
    ensures (n == 0 && |Decimal(n)| == 1) || Pow10(|Decimal(n)| - 1) <= n < Pow10(|Decimal(n)|)
  {
    var m := |Decimal(n)|;
    if n < 10 {
      assert Pow10(0) == 1 && Pow10(1) == 10;
    } else {
      DigitsAre(n / 10, if i < m - 1 then i else 0);
      if i < m - 1 { DivideTwice(n, Pow10(m - 2 - i)); }
    }
  }

  lemma DivideTwice(n: nat, d: nat)
    requires d > 0
    ensures n / 10 / d == n / (10 * d)
  {
    var q, r := n / 10, n / 10 / d;
    QuotientBounds(q, d);
    TenTimes(r, d);
    TenTimes(r + 1, d);
    Bits.DivisionIsUnique(n, 10 * d, r);
  }

  lemma QuotientBounds(q: nat, d: nat)
    requires d > 0
    ensures 0 <= q / d && q / d * d <= q < (q / d + 1) * d
  {
  }

  lemma TenTimes(r: nat, d: nat)
    ensures r * (10 * d) == 10 * (r * d)
  {
  }

  /** m digits of n, the first of which is zero only for zero, and blanks. */
  predicate DigitsAndBlanks(s: seq<byte>, n: nat, m: nat) {
    && 1 <= m <= |s| && ((n == 0 && m == 1) || Pow10(m - 1) <= n < Pow10(m))
    && (forall i | 0 <= i < m :: s[i] == 48 + Digit(n, m, i))
    && forall i | m <= i < |s| :: s[i] == 32
  }

  /** The six bytes in front: the decimal digits of the length, then blanks. */
  lemma LengthFieldIs(n: nat)
    requires n < 100000
    ensures |LengthField(n)| == 6
    ensures exists m :: 1 <= m <= 5 && DigitsAndBlanks(LengthField(n), n, m)
  {
    DecimalLength(n, 4);
    var m := |Decimal(n)|;
    DigitsAre(n, 0);
    forall i | 0 <= i < m
      ensures LengthField(n)[i] == 48 + Digit(n, m, i)
    {
      DigitsAre(n, i);
    }
    assert DigitsAndBlanks(LengthField(n), n, m);
  }

  // ---- what the writer answers --------------------------------------------

  /** Where the bytes of pair k start in cmdbuf. */
  function At(cmd: seq<byte>, pairs: seq<Pair>, k: nat): nat
    requires k <= |pairs|
  {
    6 + (5 + |cmd|) + |PairsBytes(pairs[..k])|
  }

  lemma {:induction false} StatusFrom(pairs: seq<Pair>, room: int, k: nat)
    requires k <= |pairs| && |PairsBytes(pairs[..k])| <= room
    requires forall j | 0 <= j < k :: WithinLimits(pairs[j])
    ensures PairsStatus(pairs, room) == PairsStatus(pairs[k..], room - |PairsBytes(pairs[..k])|)
  {
    if k == 0 {
      assert pairs[0..] == pairs;
    } else {
      FirstPairBytes(pairs, k);
      StatusFrom(pairs[1..], room - PairSize(pairs[0]), k - 1);
      assert pairs[1..][k - 1..] == pairs[k..];
    }
  }

  /** The answer for every message: the name is too long; or everything is within the
      limits and the buffer up to some pair k, and there is no pair k, or it is the first
      with a fault.  The faults of a pair in the order in which they are found. */
  lemma WriteStatusIs(cmd: seq<byte>, pairs: seq<Pair>, k: nat)
    ensures |cmd| > 1024 ==> WriteStatus(cmd, pairs) == CmdTooLong
    ensures k <= |pairs| && |cmd| <= 1024 && At(cmd, pairs, k) <= 65536
            && (forall j | 0 <= j < k :: |pairs[j].key| <= 64 && |pairs[j].value| <= 1024) ==>
              if k == |pairs| then WriteStatus(cmd, pairs) == if At(cmd, pairs, k) < 65536 then Success else Overrun
              else
                var p, at := pairs[k], At(cmd, pairs, k);
                && (|p.key| > 64 ==> WriteStatus(cmd, pairs) == KeyTooLong)
                && (|p.key| <= 64 && at + |p.key| + 1 >= 65536 ==> WriteStatus(cmd, pairs) == NoRoom)
                && (|p.key| <= 64 && at + |p.key| + 1 < 65536 && |p.value| > 1024 ==>
                      WriteStatus(cmd, pairs) == ValTooLong)
                && (|p.key| <= 64 && at + |p.key| + 1 < 65536 && |p.value| <= 1024
                    && at + |p.key| + 1 + |p.value| + Semicolons(p.value) + 1 > 65536 ==>
                      WriteStatus(cmd, pairs) == Overrun)
  {
    if k <= |pairs| && |cmd| <= 1024 && At(cmd, pairs, k) <= 65536
       && (forall j | 0 <= j < k :: |pairs[j].key| <= 64 && |pairs[j].value| <= 1024) {
      StatusFrom(pairs, FIRST_ROOM - |CommandBytes(cmd)|, k);
      if k < |pairs| {
        EscapedLength(pairs[k].value);
        assert pairs[k..][0] == pairs[k];
      }
    }
  }

  // ---- what the reader accepts --------------------------------------------

  /** Keys and values as they may stand in a body: no `=` in a key, no `;` at its start,
      and the limits.  A key may hold other `;` and zeros. */
  predicate RawPairs(raw: seq<Pair>) {
    forall i | 0 <= i < |raw| ::
      && 61 !in raw[i].key && (raw[i].key != [] ==> raw[i].key[0] != 59)
      && |raw[i].key| <= 64 && |raw[i].value| <= 1024
  }

  /** Keys are copied as C strings. */
  function Stripped(raw: seq<Pair>): (pairs: seq<Pair>)
    ensures |pairs| == |raw|
    ensures forall i | 0 <= i < |raw| :: pairs[i] == Pair(CString(raw[i].key), raw[i].value)
  {
    if raw == [] then [] else [Pair(CString(raw[0].key), raw[0].value)] + Stripped(raw[1..])
  }

  /** The `;` in keys that the first pass takes for ends of pairs. */
  function Miscounted(raw: seq<Pair>): nat {
    if raw == [] then 0 else LoneSemis(raw[0].key) + Miscounted(raw[1..])
  }

  lemma {:induction false} CStringIs(s: seq<byte>)
    ensures CString(s) <= s && 0 !in CString(s)
    ensures |CString(s)| < |s| ==> s[|CString(s)|] == 0
  {
    if s != [] { CStringIs(s[1..]); }
  }

  lemma RawStart(raw: seq<Pair>)
    requires RawPairs(raw)
    ensures (PairsBytes(raw) + [NUL])[0] != SEMI
  {
    if raw != [] {
      assert PairsBytes(raw)[0] == if raw[0].key == [] then EQUALS else raw[0].key[0];
    }
  }

  lemma ParsesOn(p: Pair, rest: seq<byte>, more: seq<Pair>)
    requires EQUALS !in p.key && WithinLimits(p) && |rest| >= 1 && rest[0] != SEMI && ParsePairs(rest) == Some(more)
    ensures ParsePairs(PairBytes(p) + rest) == Some([Pair(CString(p.key), p.value)] + more)
  {
    var t := PairBytes(p) + rest;
    ParsePairBytes(p, rest);
    PairSplits(p, rest);
    hide ParseItem, CString, PairBytes;
    assert |t| > 1;
  }

  /** Reading written pairs, whatever `;` and zeros their keys hold. */
  lemma {:induction false} ReadsRaw(raw: seq<Pair>)
    requires RawPairs(raw)
    ensures ParsePairs(PairsBytes(raw) + [NUL]) == Some(Stripped(raw))
    ensures CountPairs(PairsBytes(raw) + [NUL]) == |raw| + Miscounted(raw)
  {
    if raw == [] {
      assert PairsBytes(raw) + [NUL] == [NUL];
    } else {
      hide PairBytes, PairsBytes, ParsePairs, CountPairs, CString, LoneSemis;
      var p, rest := raw[0], PairsBytes(raw[1..]) + [NUL];
      RawStart(raw[1..]);
      ReadsRaw(raw[1..]);
      ParsesOn(p, rest, Stripped(raw[1..]));
      CountPairBytes(p, rest);
      PairsAndZero(raw);
    }
  }

  lemma FirstItem(p: Pair, rest: seq<byte>, junk: byte)
    requires EQUALS !in p.key && WithinLimits(p) && |rest| >= 1 && rest[0] != SEMI
    ensures DecodeTerminated(PairBytes(p) + rest, junk)
         == Assembled(Pair(CString(p.key), p.value), junk, CountPairs(PairBytes(p) + rest), ParsePairs(rest))
  {
    ParsePairBytes(p, rest);
    PairSplits(p, rest);
    hide ParseItem, CString, PairBytes, ParsePairs, CountPairs, Assembled;
    assert ParseItem(PairBytes(p) + rest).value.used == |PairBytes(p)|;
  }

  /** A body of well-formed pairs is accepted exactly if the first key is "cmd". */
  lemma {:induction false} DecodesRaw(raw: seq<Pair>, junk: byte)
    requires RawPairs(raw) && raw != []
    ensures Decode(PairsBytes(raw), junk)
         == if CString(raw[0].key) != [99, 109, 100] then None
            else Some(Command(raw[0].value + [junk], |raw| + Miscounted(raw) - 1, Stripped(raw[1..])))
  {
    hide PairBytes, PairsBytes, DecodeTerminated, CountPairs, CString, Miscounted, Stripped, ParsePairs;
    RawStart(raw[1..]);
    ReadsRaw(raw);
    ReadsRaw(raw[1..]);
    PairsAndZero(raw);
    FirstItem(raw[0], PairsBytes(raw[1..]) + [NUL], junk);
  }

  lemma {:induction false} ScanUses(t: seq<byte>)
    requires Scan(t).Stopped?
    ensures Scan(t).used == |Escape(Scan(t).value)| && Scan(t).used + 1 < |t| && t[Scan(t).used + 1] != SEMI
  {
    ScanBound(t);
    if t[0] != SEMI {
      ScanUses(t[1..]);
      assert Scan(t).value[1..] == Scan(t[1..]).value;
    } else if t[1] == SEMI {
      ScanUses(t[2..]);
      assert Scan(t).value[1..] == Scan(t[2..]).value;
    }
  }

  lemma {:induction false} NoEqualsBefore(t: seq<byte>)
    ensures EQUALS !in t[..KeyLength(t)]
  {
    if !(|t| <= 1 || t[0] == EQUALS) {
      NoEqualsBefore(t[1..]);
      assert t[..KeyLength(t)] == [t[0]] + t[1..][..KeyLength(t[1..])];
    }
  }

  /** An item that is accepted is a written pair, and no `;` follows it. */
  lemma AcceptedItem(t: seq<byte>)
    requires |t| > 1 && ParseItem(t).Some?
    ensures var item := ParseItem(t).value;
            && item.used < |t| && t[item.used] != SEMI
            && t == PairBytes(Pair(item.key, item.value)) + t[item.used..]
            && EQUALS !in item.key && WithinLimits(Pair(item.key, item.value)) && item.key <= t
  {
    ItemParts(t);
    NoEqualsBefore(t);
    var item, rest := ParseItem(t).value, t[KeyLength(t) + 1..];
    ScanUses(rest);
    ScannedIsEscaped(rest);
    assert rest == Escape(item.value) + [SEMI] + rest[Scan(rest).used + 1..];
    PairSplits(Pair(item.key, item.value), t[item.used..]);
  }

  /** Conversely, what is accepted was well-formed pairs. */
  lemma {:induction false} AcceptedPairs(t: seq<byte>) returns (raw: seq<Pair>)
    requires |t| >= 1 && ParsePairs(t).Some? && (|t| > 1 ==> t[0] != SEMI)
    ensures RawPairs(raw) && t == PairsBytes(raw) + [t[|t| - 1]]
    decreases |t|
  {
    if |t| == 1 {
      raw := [];
    } else {
      AcceptedItem(t);
      ParseItemBound(t);
      var item := ParseItem(t).value;
      var p, rest := Pair(item.key, item.value), t[item.used..];
      var more := AcceptedPairs(rest);
      raw := [p] + more;
      assert raw[1..] == more;
      assert t == PairBytes(p) + (PairsBytes(more) + [t[|t| - 1]]);
    }
  }

  /** Every body that is accepted is one of DecodesRaw. */
  lemma AcceptedIsRaw(body: seq<byte>, junk: byte) returns (raw: seq<Pair>)
    requires Decode(body, junk).Some?
    ensures RawPairs(raw) && raw != [] && body == PairsBytes(raw) && CString(raw[0].key) == [99, 109, 100]
  {
    var t := body + [NUL];
    AcceptedItem(t);
    ParseItemBound(t);
    var item := ParseItem(t).value;
    CStringIs(item.key);
    var rest := t[item.used..];
    var more := AcceptedPairs(rest);
    raw := [Pair(item.key, item.value)] + more;
    assert raw[1..] == more;
    assert item.key[0] == CString(item.key)[0];
    WithoutLast(body, PairsBytes(raw), t);
  }

  lemma WithoutLast(a: seq<byte>, b: seq<byte>, t: seq<byte>)
    requires t == a + [NUL] && t == b + [t[|t| - 1]]
    ensures a == b
  {
    assert a == t[..|t| - 1] == b;
  }

  // ---- the length of a frame ----------------------------------------------

  /** Decimal digits, one after the other. */
  lemma {:induction false} DigitsNext(ds: seq<byte>, d: byte, rest: seq<byte>, acc: nat)
    requires (forall i | 0 <= i < |ds| :: 48 <= ds[i] <= 57) && 48 <= d <= 57
    requires rest == [] || !(48 <= rest[0] <= 57)
    ensures Digits(ds + rest, acc) == Digits(ds, acc)
    ensures Digits(ds + [d] + rest, acc) == 10 * Digits(ds, acc) + (d - 48)
  {
    if ds == [] {
      assert ds + rest == rest && ds + [d] + rest == [d] + rest && ([d] + rest)[1..] == rest;
    } else {
      var acc' := 10 * acc + (ds[0] - 48);
      assert (ds + rest)[1..] == ds[1..] + rest && (ds + [d] + rest)[1..] == ds[1..] + [d] + rest;
      DigitsNext(ds[1..], d, rest, acc');
    }
  }

  /** atoi: white space, a sign or none, then the digits count. */
  lemma {:induction false} AtoiIs(white: seq<byte>, sign: seq<byte>, rest: seq<byte>)
    requires forall i | 0 <= i < |white| :: white[i] == 32 || 9 <= white[i] <= 13
    requires sign == [] || sign == [45] || sign == [43]
    requires sign == [] && rest != [] ==> rest[0] !in {43, 45, 32} && !(9 <= rest[0] <= 13)
    ensures Atoi(white + sign + rest) == if sign == [45] then 0 - Digits(rest, 0) else Digits(rest, 0)
  {
    if white == [] {
      assert white + sign + rest == sign + rest;
      if sign == [] {
        assert sign + rest == rest;
      } else {
        assert (sign + rest)[1..] == rest;
      }
    } else {
      AtoiIs(white[1..], sign, rest);
      assert (white + sign + rest)[1..] == white[1..] + sign + rest;
    }
  }

  /** What a read takes off the stream: the six bytes of the length and, if it is
      positive, that many more, or all there are. */
  lemma AfterFrameIs(stream: seq<byte>)
    ensures |stream| < 6 ==> ReadFrame(stream, NUL) == None && AfterFrame(stream) == []
    ensures |stream| >= 6 ==>
              var n := Atoi(stream[..6]);
              && |AfterFrame(stream)| <= |stream| && AfterFrame(stream) == stream[|stream| - |AfterFrame(stream)|..]
              && (n <= 0 ==> |AfterFrame(stream)| == |stream| - 6)
              && (0 < n <= |stream| - 6 ==> |AfterFrame(stream)| == |stream| - 6 - n)
              && (n > |stream| - 6 ==> AfterFrame(stream) == [])
              && forall junk: byte ::
                   ReadFrame(stream, junk)
                   == if 0 < n <= |stream| - 6 then Decode(stream[6..6 + n], junk) else None
  {
  }
}
