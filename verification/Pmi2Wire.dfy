/** The PMI-2 wire format of pmi2_api.c: what a command looks like on the
    descriptor, and what the reader makes of an arbitrary byte buffer. */
module Pmi2Wire {
  import opened Wrappers

  type byte = x: nat | x < 256

  const NUL: byte := 0
  const SPACE: byte := 32
  const PLUS: byte := 43
  const MINUS: byte := 45
  const ZERO: byte := 48
  const SEMI: byte := 59
  const EQUALS: byte := 61
  const CMD: seq<byte> := [99, 109, 100]
  const THRID: seq<byte> := [116, 104, 114, 105, 100]

  const PMI2_MAX_KEYLEN: nat := 64
  const PMI2_MAX_VALLEN: nat := 1024
  const PMII_COMMANDLEN_SIZE: nat := 6
  const PMII_MAX_COMMAND_LEN: nat := 65536

  datatype Pair = Pair(key: seq<byte>, value: seq<byte>)

  /** PMI2_Command.  `command` is the allocated block: the name and one more byte,
      which the reader never assigns; the length of the name is not kept. */
  datatype Command = Command(command: seq<byte>, nPairs: int, pairs: seq<Pair>)

  // ---- what the writer sends ----------------------------------------------

  /** Every `;` doubled. */
  function Escape(v: seq<byte>): seq<byte> {
    if v == [] then []
    else if v[0] == SEMI then [SEMI, SEMI] + Escape(v[1..])
    else [v[0]] + Escape(v[1..])
  }

  function PairBytes(p: Pair): seq<byte> {
    p.key + [EQUALS] + Escape(p.value) + [SEMI]
  }

  function PairsBytes(pairs: seq<Pair>): seq<byte> {
    if pairs == [] then [] else PairBytes(pairs[0]) + PairsBytes(pairs[1..])
  }

  function CommandBytes(cmd: seq<byte>): seq<byte> {
    CMD + [EQUALS] + cmd + [SEMI]
  }

  function Body(cmd: seq<byte>, pairs: seq<Pair>): seq<byte> {
    CommandBytes(cmd) + PairsBytes(pairs)
  }

  /** `%d` of a non-negative number. */
  function Decimal(n: nat): (s: seq<byte>)
    ensures |s| >= 1
  {
    if n < 10 then [ZERO + n] else Decimal(n / 10) + [ZERO + n % 10]
  }

  function Spaces(n: nat): (s: seq<byte>)
    ensures |s| == n
  {
    seq(n, _ => SPACE)
  }

  /** The length, left-aligned in a field of six characters. */
  function LengthField(n: nat): (s: seq<byte>)
    requires n < 100000
    ensures |s| == PMII_COMMANDLEN_SIZE
  {
    DecimalLength(n, 4);
    Decimal(n) + Spaces(PMII_COMMANDLEN_SIZE - |Decimal(n)|)
  }

  function Frame(cmd: seq<byte>, pairs: seq<Pair>): seq<byte>
    requires |Body(cmd, pairs)| < 100000
  {
    LengthField(|Body(cmd, pairs)|) + Body(cmd, pairs)
  }

  function Pow10(k: nat): (r: nat)
    ensures r >= 1
  {
    if k == 0 then 1 else 10 * Pow10(k - 1)
  }

  lemma {:induction false} DecimalLength(n: nat, k: nat)
    requires n < 10 * Pow10(k)
    ensures 1 <= |Decimal(n)| <= k + 1
  {
    if n >= 10 { DecimalLength(n / 10, k - 1); }
  }

  // ---- what the reader accepts --------------------------------------------

  predicate IsDigit(c: byte) {
    ZERO <= c < ZERO + 10
  }

  predicate IsWhite(c: byte) {
    c == SPACE || 9 <= c <= 13
  }

  /** The value of the digits at the front of s, continuing from acc. */
  function Digits(s: seq<byte>, acc: nat): nat {
    if s == [] || !IsDigit(s[0]) then acc else Digits(s[1..], 10 * acc + (s[0] - ZERO))
  }

  /** C's atoi. */
  function Atoi(s: seq<byte>): int {
    if s == [] then 0
    else if IsWhite(s[0]) then Atoi(s[1..])
    else if s[0] == MINUS then 0 - Digits(s[1..], 0)
    else if s[0] == PLUS then Digits(s[1..], 0)
    else Digits(s, 0)
  }

  /** The C string at the front of s. */
  function CString(s: seq<byte>): seq<byte> {
    if s == [] || s[0] == NUL then [] else [s[0]] + CString(s[1..])
  }

  // A buffer is followed by the zero byte that the reader stores behind it, so
  // the functions below take the rest of the buffer including that byte.

  /** Position of the first `=`; that of the final byte if there is none. */
  function KeyLength(t: seq<byte>): (k: nat)
    ensures |t| >= 1 ==> k <= |t| - 1
  {
    if |t| <= 1 || t[0] == EQUALS then 0 else 1 + KeyLength(t[1..])
  }

  datatype Scanned = Stopped(value: seq<byte>, used: nat) | RanOut

  function Ahead(front: seq<byte>, n: nat, r: Scanned): Scanned {
    match r
    case Stopped(v, u) => Stopped(front + v, n + u)
    case RanOut => RanOut
  }

  /** A value up to the first `;` that is not doubled, with doubled ones halved. */
  function Scan(t: seq<byte>): Scanned {
    if |t| <= 1 then RanOut
    else if t[0] == SEMI then
      if t[1] != SEMI then Stopped([], 0) else Ahead([t[1]], 2, Scan(t[2..]))
    else Ahead([t[0]], 1, Scan(t[1..]))
  }

  lemma {:induction false} ScanBound(t: seq<byte>)
    ensures Scan(t).Stopped? ==>
              && |Scan(t).value| <= Scan(t).used < |t| - 1
              && t[Scan(t).used] == SEMI
  {
    if |t| > 1 {
      if t[0] != SEMI {
        ScanBound(t[1..]);
      } else if t[1] == SEMI {
        ScanBound(t[2..]);
      }
    }
  }

  /** A key, a value, and how many bytes they and their delimiters take. */
  datatype Item = Item(key: seq<byte>, value: seq<byte>, used: nat)

  function ParseItem(t: seq<byte>): (r: Option<Item>)
    requires |t| >= 1
  {
    var k := KeyLength(t);
    if k == |t| - 1 || k > PMI2_MAX_KEYLEN then None
    else
      match Scan(t[k + 1..])
      case RanOut => None
      case Stopped(v, u) => if |v| > PMI2_MAX_VALLEN then None else Some(Item(t[..k], v, k + 1 + u + 1))
  }

  lemma ParseItemBound(t: seq<byte>)
    requires |t| >= 1
    ensures ParseItem(t).Some? ==> 2 <= ParseItem(t).value.used <= |t| - 1
  {
    var k := KeyLength(t);
    if k < |t| - 1 { ScanBound(t[k + 1..]); }
  }

  /** The remaining pairs of a buffer. */
  function ParsePairs(t: seq<byte>): (r: Option<seq<Pair>>)
    requires |t| >= 1
    decreases |t|
  {
    if |t| == 1 then Some([])
    else
      match ParseItem(t)
      case None => None
      case Some(item) =>
        ParseItemBound(t);
        match ParsePairs(t[item.used..])
        case None => None
        case Some(rest) => Some([Pair(CString(item.key), item.value)] + rest)
  }

  /** The first pass: every `;` that is not one of a doubled pair, plus one if the
      buffer does not end in such a `;`. */
  function CountPairs(t: seq<byte>): nat
    decreases |t|
  {
    if |t| <= 1 then 0
    else if t[0] == SEMI then
      if t[1] == SEMI then CountPairs(t[2..]) else 1 + CountPairs(t[1..])
    else if |t| == 2 then 1
    else CountPairs(t[1..])
  }

  /** What the reader stores for a message body; junk is the byte that happens to
      be in the block of the command behind the name. */
  function Decode(body: seq<byte>, junk: byte): (r: Option<Command>) {
    DecodeTerminated(body + [NUL], junk)
  }

  function DecodeTerminated(t: seq<byte>, junk: byte): (r: Option<Command>)
    requires |t| >= 1
  {
    match ParseItem(t)
    case None => None
    case Some(first) =>
      ParseItemBound(t);
      Assembled(Pair(CString(first.key), first.value), junk, CountPairs(t), ParsePairs(t[first.used..]))
  }

  /** The command made of its first pair, the count and the pairs behind. */
  function Assembled(first: Pair, junk: byte, numPairs: nat, rest: Option<seq<Pair>>): Option<Command> {
    if first.key != CMD || rest.None? then None else Some(Command(first.value + [junk], numPairs - 1, rest.value))
  }

  /** One command off the front of a byte stream. */
  function ReadFrame(stream: seq<byte>, junk: byte): (r: Option<Command>) {
    if |stream| < PMII_COMMANDLEN_SIZE then None
    else
      var n := Atoi(stream[..PMII_COMMANDLEN_SIZE]);
      if n <= 0 || |stream| < PMII_COMMANDLEN_SIZE + n then None
      else Decode(stream[PMII_COMMANDLEN_SIZE..PMII_COMMANDLEN_SIZE + n], junk)
  }

  /** What is left of the stream, whether that gave a command or not. */
  function AfterFrame(stream: seq<byte>): seq<byte> {
    if |stream| < PMII_COMMANDLEN_SIZE then []
    else
      var n := Atoi(stream[..PMII_COMMANDLEN_SIZE]);
      if n <= 0 then stream[PMII_COMMANDLEN_SIZE..]
      else if |stream| < PMII_COMMANDLEN_SIZE + n then []
      else stream[PMII_COMMANDLEN_SIZE + n..]
  }

  // ---- handing the command over -------------------------------------------

  /** Stands for the address of a PMI2_Command. */
  type Address = nat

  /** `%p` of sscanf: the address that a string holds, if any. */
  type Scanner = seq<byte> -> Option<Address>

  datatype Lookup = Absent | Present(value: seq<byte>) | NoPair

  /** getval: it goes through nPairs pointers, of which those behind the stored
      pairs were never assigned. */
  function GetVal(pairs: seq<Pair>, nPairs: int, key: seq<byte>): Lookup {
    if nPairs <= 0 then Absent
    else if pairs == [] then NoPair
    else if pairs[0].key == key then Present(pairs[0].value)
    else GetVal(pairs[1..], nPairs - 1, key)
  }

  /** The conversion of getvalptr. */
  function Pointer(value: seq<byte>, scan: Scanner): Option<Address> {
    if value == [] then None else scan(CString(value))
  }

  /** What becomes of a frame: nothing, or it is stored at an address, or the reader
      follows a pointer that nothing assigned; C does not define what then follows. */
  datatype Handover = Failed | Stored(target: Address, command: Command) | UnsetTarget | UnsetSlot

  /** A command goes to the caller unless it has a thrid.  If that does not convert,
      it goes where the previous one of the same call went. */
  function HandOver(c: Command, self: Address, last: Option<Address>, scan: Scanner): Handover {
    match GetVal(c.pairs, c.nPairs, THRID)
    case Absent => Stored(self, c)
    case NoPair => UnsetSlot
    case Present(v) =>
      match Pointer(v, scan)
      case Some(a) => Stored(a, c)
      case None => if last.Some? then Stored(last.value, c) else UnsetTarget
  }

  /** One round of PMIi_ReadCommand for the caller at `self`. */
  function TakeFrame(stream: seq<byte>, junk: byte, self: Address, last: Option<Address>, scan: Scanner): Handover {
    match ReadFrame(stream, junk)
    case None => Failed
    case Some(c) => HandOver(c, self, last, scan)
  }

  // ---- checking the command -----------------------------------------------

  datatype Comparison = Same | Different | OutOfBlock

  /** strncmp(block, exp, strlen(exp)): it reads the block for as long as the two
      agree, if need be past its end. */
  function Compare(block: seq<byte>, exp: seq<byte>): Comparison {
    if exp == [] then Same
    else if block == [] then OutOfBlock
    else if block[0] != exp[0] then Different
    else Compare(block[1..], exp[1..])
  }
}

/** Round trips through the PMI-2 wire format. */
module Pmi2RoundTrip {
  import opened Wrappers
  import opened Pmi2Wire

  // ---- the length field ---------------------------------------------------

  /** The number whose decimal digits are those of acc followed by those of n. */
  function Followed(acc: nat, n: nat): nat {
    if n < 10 then 10 * acc + n else 10 * Followed(acc, n / 10) + n % 10
  }

  lemma {:induction false} FollowsNothing(n: nat)
    ensures Followed(0, n) == n
  {
    if n >= 10 { FollowsNothing(n / 10); }
  }

  lemma {:induction false} DigitsSplit(n: nat, rest: seq<byte>, acc: nat)
    ensures Digits(Decimal(n) + rest, acc) == Digits(rest, Followed(acc, n))
    ensures IsDigit(Decimal(n)[0])
  {
    if n < 10 {
      var s := Decimal(n) + rest;
      assert s[1..] == rest;
    } else {
      var tail := [ZERO + n % 10] + rest;
      assert Decimal(n) + rest == Decimal(n / 10) + tail;
      DigitsSplit(n / 10, tail, acc);
      assert tail[1..] == rest;
    }
  }

  /** The length field always decodes to the length. */
  lemma LengthFieldDecodes(n: nat)
    requires n < 100000
    ensures Atoi(LengthField(n)) == n
  {
    DecimalLength(n, 4);
    DigitsSplit(n, Spaces(PMII_COMMANDLEN_SIZE - |Decimal(n)|), 0);
    FollowsNothing(n);
    assert LengthField(n)[0] == Decimal(n)[0];
  }

  // ---- one pair -----------------------------------------------------------

  lemma {:induction false} ScanEscaped(v: seq<byte>, rest: seq<byte>)
    requires |rest| >= 1 && rest[0] != SEMI
    ensures Scan(Escape(v) + [SEMI] + rest) == Stopped(v, |Escape(v)|)
  {
    if v == [] {
      assert Escape(v) + [SEMI] + rest == [SEMI] + rest;
    } else {
      ScanEscaped(v[1..], rest);
      EscapeFirst(v, rest);
      ScanOne(v[0], Escape(v[1..]) + [SEMI] + rest);
      assert v == [v[0]] + v[1..];
    }
  }

  lemma EscapeFirst(v: seq<byte>, rest: seq<byte>)
    requires v != []
    ensures Escape(v) + [SEMI] + rest
         == (if v[0] == SEMI then [SEMI, SEMI] else [v[0]]) + (Escape(v[1..]) + [SEMI] + rest)
    ensures |Escape(v)| == (if v[0] == SEMI then 2 else 1) + |Escape(v[1..])|
  {
  }

  lemma ScanOne(x: byte, t: seq<byte>)
    requires |t| >= 1
    ensures x != SEMI ==> Scan([x] + t) == Ahead([x], 1, Scan(t))
    ensures Scan([SEMI, SEMI] + t) == Ahead([SEMI], 2, Scan(t))
  {
    assert ([x] + t)[1..] == t && ([SEMI, SEMI] + t)[2..] == t;
  }

  lemma {:induction false} KeyLengthOf(key: seq<byte>, rest: seq<byte>)
    requires EQUALS !in key && |rest| >= 1
    ensures KeyLength(key + [EQUALS] + rest) == |key|
  {
    if key != [] {
      KeyLengthOf(key[1..], rest);
      assert (key + [EQUALS] + rest)[1..] == key[1..] + [EQUALS] + rest;
    }
  }

  lemma {:induction false} CStringOf(key: seq<byte>)
    requires NUL !in key
    ensures CString(key) == key
  {
    if key != [] {
      CStringOf(key[1..]);
    }
  }

  /** `;` in a key that the first pass counts although no pair ends there. */
  function LoneSemis(key: seq<byte>): nat {
    if key == [] then 0
    else if key[0] != SEMI then LoneSemis(key[1..])
    else if |key| > 1 && key[1] == SEMI then LoneSemis(key[2..])
    else 1 + LoneSemis(key[1..])
  }

  lemma {:induction false} NoLoneSemis(key: seq<byte>)
    requires SEMI !in key
    ensures LoneSemis(key) == 0
  {
    if key != [] { NoLoneSemis(key[1..]); }
  }

  /** A key that comes through: no `=`, no `;` in front, and others only doubled. */
  predicate CarriedKey(key: seq<byte>) {
    EQUALS !in key && (key != [] ==> key[0] != SEMI) && LoneSemis(key) == 0
  }

  predicate WithinLimits(p: Pair) {
    |p.key| <= PMI2_MAX_KEYLEN && |p.value| <= PMI2_MAX_VALLEN
  }

  /** A pair within the limits of the protocol, with a C string that comes through
      as its key.  The value is arbitrary. */
  predicate Sendable(p: Pair) {
    NUL !in p.key && CarriedKey(p.key) && WithinLimits(p)
  }

  lemma ParsePairBytes(p: Pair, rest: seq<byte>)
    requires EQUALS !in p.key && WithinLimits(p) && |rest| >= 1 && rest[0] != SEMI
    ensures ParseItem(PairBytes(p) + rest) == Some(Item(p.key, p.value, |PairBytes(p)|))
  {
    var t := PairBytes(p) + rest;
    var tail := Escape(p.value) + [SEMI] + rest;
    assert t == p.key + [EQUALS] + tail;
    KeyLengthOf(p.key, tail);
    assert t[..|p.key|] == p.key && t[|p.key| + 1..] == tail;
    ScanEscaped(p.value, rest);
  }

  lemma {:induction false} CountSkips(front: seq<byte>, rest: seq<byte>)
    requires SEMI !in front && |rest| >= 2
    ensures CountPairs(front + rest) == CountPairs(rest)
  {
    if front != [] {
      CountSkips(front[1..], rest);
      assert (front + rest)[1..] == front[1..] + rest;
    } else {
      assert front + rest == rest;
    }
  }

  lemma {:induction false} CountEscaped(v: seq<byte>, rest: seq<byte>)
    requires |rest| >= 1 && rest[0] != SEMI
    ensures CountPairs(Escape(v) + [SEMI] + rest) == 1 + CountPairs(rest)
  {
    var t := Escape(v) + [SEMI] + rest;
    if v == [] {
      assert t[1..] == rest;
    } else {
      CountEscaped(v[1..], rest);
      var next := Escape(v[1..]) + [SEMI] + rest;
      if v[0] == SEMI {
        assert t[2..] == next;
      } else {
        assert t[1..] == next;
      }
    }
  }

  lemma PairSplits(p: Pair, rest: seq<byte>)
    ensures PairBytes(p) + rest == p.key + [EQUALS] + (Escape(p.value) + [SEMI] + rest)
    ensures (PairBytes(p) + rest)[|PairBytes(p)|..] == rest
  {
  }

  lemma CountPairBytes(p: Pair, rest: seq<byte>)
    requires |rest| >= 1 && rest[0] != SEMI
    ensures CountPairs(PairBytes(p) + rest) == LoneSemis(p.key) + 1 + CountPairs(rest)
  {
    PairSplits(p, rest);
    CountKey(p.key, Escape(p.value) + [SEMI] + rest);
    CountEscaped(p.value, rest);
  }

  // ---- a whole body -------------------------------------------------------

  predicate AllSendable(pairs: seq<Pair>) {
    forall i | 0 <= i < |pairs| :: Sendable(pairs[i])
  }

  /** The rest of a body never starts with `;`. */
  lemma RestStart(pairs: seq<Pair>)
    requires AllSendable(pairs)
    ensures (PairsBytes(pairs) + [NUL])[0] != SEMI
  {
    if pairs != [] {
      var p := pairs[0];
      assert PairsBytes(pairs)[0] == (if p.key == [] then EQUALS else p.key[0]);
    }
  }

  lemma PairThenRest(p: Pair, rest: seq<byte>, more: seq<Pair>)
    requires Sendable(p) && |rest| >= 1 && rest[0] != SEMI && ParsePairs(rest) == Some(more)
    ensures ParsePairs(PairBytes(p) + rest) == Some([p] + more)
  {
    ParsePairBytes(p, rest);
    assert (PairBytes(p) + rest)[|PairBytes(p)|..] == rest;
    ParsePairsNext(PairBytes(p) + rest, p, |PairBytes(p)|, more);
  }

  lemma PairsAndZero(pairs: seq<Pair>)
    requires pairs != []
    ensures PairsBytes(pairs) + [NUL] == PairBytes(pairs[0]) + (PairsBytes(pairs[1..]) + [NUL])
  {
  }

  lemma {:induction false} CountPairsBytes(pairs: seq<Pair>)
    requires AllSendable(pairs)
    ensures CountPairs(PairsBytes(pairs) + [NUL]) == |pairs|
  {
    if pairs == [] {
      assert PairsBytes(pairs) + [NUL] == [NUL];
    } else {
      RestStart(pairs[1..]);
      CountPairsBytes(pairs[1..]);
      CountPairBytes(pairs[0], PairsBytes(pairs[1..]) + [NUL]);
      PairsAndZero(pairs);
    }
  }

  lemma {:induction false} ParsePairsBytes(pairs: seq<Pair>)
    requires AllSendable(pairs)
    ensures ParsePairs(PairsBytes(pairs) + [NUL]) == Some(pairs)
  {
    if pairs == [] {
      assert PairsBytes(pairs) + [NUL] == [NUL];
    } else {
      var rest := PairsBytes(pairs[1..]) + [NUL];
      RestStart(pairs[1..]);
      ParsePairsBytes(pairs[1..]);
      PairThenRest(pairs[0], rest, pairs[1..]);
      PairsAndZero(pairs);
      assert pairs == [pairs[0]] + pairs[1..];
    }
  }

  lemma ParsePairsNext(t: seq<byte>, p: Pair, used: nat, more: seq<Pair>)
    requires 0 < used < |t| && ParseItem(t) == Some(Item(p.key, p.value, used)) && NUL !in p.key
    requires ParsePairs(t[used..]) == Some(more)
    ensures ParsePairs(t) == Some([p] + more)
  {
    CStringOf(p.key);
  }

  lemma {:induction false} EscapeNothing(v: seq<byte>)
    requires SEMI !in v
    ensures Escape(v) == v
  {
    if v != [] {
      EscapeNothing(v[1..]);
    }
  }

  /** What the writer demands of a command name: a C string, at most as long as
      a value, and without the `;` that it does not escape. */
  predicate SendableName(cmd: seq<byte>) {
    NUL !in cmd && SEMI !in cmd && |cmd| <= PMI2_MAX_VALLEN
  }

  /** Frame round trip: the reader stores exactly the command that was written,
      with the same pairs in the same order and the right count, and behind the
      name whatever was there. */
  lemma BodyRoundTrip(cmd: seq<byte>, pairs: seq<Pair>, junk: byte)
    requires SendableName(cmd) && AllSendable(pairs)
    ensures Decode(Body(cmd, pairs), junk) == Some(Command(cmd + [junk], |pairs|, pairs))
  {
    RestStart(pairs);
    ParsePairsBytes(pairs);
    CountPairsBytes(pairs);
    BodySplits(cmd, pairs);
    CommandThenPairs(cmd, PairsBytes(pairs) + [NUL], pairs, junk);
  }

  lemma BodySplits(cmd: seq<byte>, pairs: seq<Pair>)
    requires SEMI !in cmd
    ensures Body(cmd, pairs) + [NUL] == PairBytes(Pair(CMD, cmd)) + (PairsBytes(pairs) + [NUL])
  {
    EscapeNothing(cmd);
  }

  lemma CommandThenPairs(cmd: seq<byte>, rest: seq<byte>, pairs: seq<Pair>, junk: byte)
    requires |cmd| <= PMI2_MAX_VALLEN && |rest| >= 1 && rest[0] != SEMI
    requires ParsePairs(rest) == Some(pairs)
    ensures DecodeTerminated(PairBytes(Pair(CMD, cmd)) + rest, junk)
         == Some(Command(cmd + [junk], CountPairs(rest), pairs))
  {
    hide CountPairs, ParsePairs, DecodeTerminated, PairBytes;
    NoLoneSemis(CMD);
    FirstPairAssembles(Pair(CMD, cmd), rest, junk);
  }

  lemma FirstPairAssembles(first: Pair, rest: seq<byte>, junk: byte)
    requires Sendable(first) && |rest| >= 1 && rest[0] != SEMI
    ensures DecodeTerminated(PairBytes(first) + rest, junk)
         == Assembled(first, junk, CountPairs(rest) + 1, ParsePairs(rest))
  {
    hide CountPairs, ParsePairs, ParseItem, PairBytes;
    var t := PairBytes(first) + rest;
    ParsePairBytes(first, rest);
    CountPairBytes(first, rest);
    PairSplits(first, rest);
    CStringOf(first.key);
    assert t[ParseItem(t).value.used..] == rest;
  }

  /** An accepted value, escaped again, is what was scanned. */
  lemma {:induction false} ScannedIsEscaped(t: seq<byte>)
    requires Scan(t).Stopped?
    ensures Escape(Scan(t).value) + [SEMI] <= t
  {
    ScanBound(t);
    if t[0] != SEMI {
      ScannedIsEscaped(t[1..]);
      assert Scan(t).value[1..] == Scan(t[1..]).value;
      assert t == [t[0]] + t[1..];
    } else if t[1] == SEMI {
      ScannedIsEscaped(t[2..]);
      assert Scan(t).value[1..] == Scan(t[2..]).value;
      assert t == [t[0], t[1]] + t[2..];
    }
  }

  function Semis(k: nat): (s: seq<byte>)
    ensures |s| == k
  {
    seq(k, _ => SEMI)
  }

  /** A name that needs escaping is not followed by what its escaped form
      would be followed by. */
  lemma {:induction false} EscapeIsNoPrefix(cmd: seq<byte>, rest: seq<byte>, k: nat)
    requires |rest| >= 1 && rest[0] != SEMI
    requires k > 0 || SEMI in cmd
    ensures !(Semis(k) + Escape(cmd) + [SEMI] <= cmd + [SEMI] + rest)
  {
    var l, r := Semis(k) + Escape(cmd) + [SEMI], cmd + [SEMI] + rest;
    if cmd == [] {
      assert l[1] != r[1];
    } else {
      var more := cmd[1..];
      assert r[0] == cmd[0] && r[1..] == more + [SEMI] + rest;
      assert l <= r ==> l[1..] <= r[1..];
      if cmd[0] == SEMI {
        assert l == Semis(k) + [SEMI, SEMI] + Escape(more) + [SEMI];
        assert l[1..] == Semis(k + 1) + Escape(more) + [SEMI];
        EscapeIsNoPrefix(more, rest, k + 1);
      } else if k > 0 {
        assert l[0] != r[0];
      } else {
        assert l[1..] == Semis(0) + Escape(more) + [SEMI];
        EscapeIsNoPrefix(more, rest, 0);
      }
    }
  }

  lemma ScanOfRawName(cmd: seq<byte>, rest: seq<byte>)
    requires |rest| >= 1 && rest[0] != SEMI && SEMI in cmd
    ensures Scan(cmd + [SEMI] + rest).Stopped? ==> Scan(cmd + [SEMI] + rest).value != cmd
  {
    var t := cmd + [SEMI] + rest;
    if Scan(t).Stopped? {
      ScannedIsEscaped(t);
      EscapeIsNoPrefix(cmd, rest, 0);
      assert Semis(0) + Escape(cmd) + [SEMI] == Escape(cmd) + [SEMI];
    }
  }

  lemma DecodedName(body: seq<byte>, tail: seq<byte>, junk: byte)
    requires body + [NUL] == CMD + [EQUALS] + tail && |tail| >= 1 && Decode(body, junk).Some?
    ensures Scan(tail).Stopped? && Decode(body, junk).value.command == Scan(tail).value + [junk]
  {
    KeyLengthOf(CMD, tail);
    assert (body + [NUL])[|CMD| + 1..] == tail;
  }

  lemma SameFront(a: seq<byte>, b: seq<byte>, x: byte)
    requires a + [x] == b + [x]
    ensures a == b
  {
    assert a == (a + [x])[..|a|] && b == (b + [x])[..|b|];
  }

  lemma RawNameIsLost(cmd: seq<byte>, pairs: seq<Pair>, junk: byte)
    requires SEMI in cmd && AllSendable(pairs) && Decode(Body(cmd, pairs), junk).Some?
    ensures Decode(Body(cmd, pairs), junk).value.command != cmd + [junk]
  {
    var rest := PairsBytes(pairs) + [NUL];
    var tail := cmd + [SEMI] + rest;
    RestStart(pairs);
    ScanOfRawName(cmd, rest);
    BodyStarts(cmd, pairs, tail);
    DecodedName(Body(cmd, pairs), tail, junk);
    if Scan(tail).value + [junk] == cmd + [junk] {
      SameFront(Scan(tail).value, cmd, junk);
    }
  }

  lemma BodyStarts(cmd: seq<byte>, pairs: seq<Pair>, tail: seq<byte>)
    requires tail == cmd + [SEMI] + (PairsBytes(pairs) + [NUL])
    ensures Body(cmd, pairs) + [NUL] == CMD + [EQUALS] + tail
  {
  }

  /** The name is not escaped: it survives exactly when it holds no `;`. */
  lemma NameSurvivesIffNoSemicolon(cmd: seq<byte>, pairs: seq<Pair>, junk: byte)
    requires NUL !in cmd && |cmd| <= PMI2_MAX_VALLEN && AllSendable(pairs)
    ensures Decode(Body(cmd, pairs), junk) == Some(Command(cmd + [junk], |pairs|, pairs)) <==> SEMI !in cmd
  {
    if SEMI !in cmd {
      BodyRoundTrip(cmd, pairs, junk);
    } else if Decode(Body(cmd, pairs), junk).Some? {
      RawNameIsLost(cmd, pairs, junk);
    }
  }

  const LETTER_A: byte := 97
  const LETTER_B: byte := 98
  const LETTER_K: byte := 107
  const LETTER_V: byte := 118

  /** What stands behind the first `;` of the command below. */
  const SPLIT: seq<byte> := [LETTER_B, SEMI, LETTER_K, EQUALS, LETTER_V, SEMI, NUL]

  lemma SplitParses()
    ensures ParsePairs(SPLIT) == Some([Pair([LETTER_B, SEMI, LETTER_K], [LETTER_V])])
  {
    var key, tail := [LETTER_B, SEMI, LETTER_K], [LETTER_V, SEMI, NUL];
    assert SPLIT == key + [EQUALS] + tail;
    KeyLengthOf(key, tail);
    EscapeNothing([LETTER_V]);
    ScanEscaped([LETTER_V], [NUL]);
    assert Escape([LETTER_V]) + [SEMI] + [NUL] == tail;
    assert SPLIT[..3] == key && SPLIT[4..] == tail && SPLIT[6..] == [NUL];
    assert ParsePairs([NUL]) == Some([]);
    ParsePairsNext(SPLIT, Pair(key, [LETTER_V]), 6, []);
    assert [Pair(key, [LETTER_V])] + [] == [Pair(key, [LETTER_V])];
  }

  lemma SplitCounts()
    ensures CountPairs(SPLIT) == 2
  {
    CountSkips([LETTER_B], SPLIT[1..]);
    assert [LETTER_B] + SPLIT[1..] == SPLIT;
    CountSkips([LETTER_K, EQUALS, LETTER_V], [SEMI, NUL]);
    assert SPLIT[1..][1..] == [LETTER_K, EQUALS, LETTER_V] + [SEMI, NUL];
    assert [SEMI, NUL][1..] == [NUL];
  }

  /** The command "a;b" with the pair k=v is read back as the command "a" with
      the pair "b;k"=v, in an array of two of which only one is stored. */
  lemma SemicolonSplitsName(junk: byte)
    ensures Decode(Body([LETTER_A, SEMI, LETTER_B], [Pair([LETTER_K], [LETTER_V])]), junk)
         == Some(Command([LETTER_A] + [junk], 2, [Pair([LETTER_B, SEMI, LETTER_K], [LETTER_V])]))
  {
    SplitBytes();
    SplitParses();
    SplitCounts();
    CommandThenPairs([LETTER_A], SPLIT, [Pair([LETTER_B, SEMI, LETTER_K], [LETTER_V])], junk);
  }

  lemma SplitBytes()
    ensures Body([LETTER_A, SEMI, LETTER_B], [Pair([LETTER_K], [LETTER_V])]) + [NUL]
         == PairBytes(Pair(CMD, [LETTER_A])) + SPLIT
  {
    var sent, first := Pair([LETTER_K], [LETTER_V]), Pair(CMD, [LETTER_A]);
    EscapeNothing([LETTER_A]);
    EscapeNothing([LETTER_V]);
    assert PairBytes(sent) == [LETTER_K, EQUALS, LETTER_V, SEMI];
    assert [sent][1..] == [] && PairsBytes([sent]) == PairBytes(sent);
    assert PairBytes(first) == CMD + [EQUALS, LETTER_A, SEMI];
  }

  // ---- the command as its readers see it ----------------------------------

  lemma {:induction false} CompareIs(block: seq<byte>, exp: seq<byte>)
    ensures Compare(block, exp) == if exp <= block then Same else if block <= exp then OutOfBlock else Different
  {
    if exp != [] && block != [] {
      CompareIs(block[1..], exp[1..]);
      if block[0] == exp[0] {
        assert block == [block[0]] + block[1..] && exp == [exp[0]] + exp[1..];
      }
    }
  }

  lemma LongerThanName(name: seq<byte>, exp: seq<byte>, junk: byte)
    requires |exp| > |name|
    ensures !(name <= exp) ==> Compare(name + [junk], exp) == Different
    ensures name <= exp ==> (Compare(name + [junk], exp).Different? <==> junk != exp[|name|])
  {
    CompareIs(name + [junk], exp);
    assert (name + [junk])[..|name|] == name;
    if name <= exp && junk == exp[|name|] {
      assert exp[..|name| + 1] == name + [junk];
    }
  }

  lemma NoLongerThanName(name: seq<byte>, exp: seq<byte>, junk: byte)
    requires |exp| <= |name|
    ensures Compare(name + [junk], exp) == if exp <= name then Same else Different
  {
    CompareIs(name + [junk], exp);
    assert (name + [junk])[..|exp|] == name[..|exp|];
  }

  /** The command is compared without its length: the outcome is the same for
      every leftover byte if and only if the expected string is no longer than
      the name, or differs from it within the name. */
  lemma LeftoverIsHarmlessIff(name: seq<byte>, exp: seq<byte>)
    ensures (forall x: byte, y: byte :: Compare(name + [x], exp) == Compare(name + [y], exp))
       <==> |exp| <= |name| || exists i | 0 <= i < |name| :: name[i] != exp[i]
  {
    forall x: byte
      ensures |exp| <= |name| ==> Compare(name + [x], exp) == if exp <= name then Same else Different
      ensures |exp| > |name| && !(name <= exp) ==> Compare(name + [x], exp) == Different
    {
      if |exp| <= |name| { NoLongerThanName(name, exp, x); } else { LongerThanName(name, exp, x); }
    }
    if |exp| > |name| && name <= exp {
      var x := exp[|name|];
      var y: byte := if x == 0 then 1 else 0;
      LongerThanName(name, exp, x);
      LongerThanName(name, exp, y);
    }
  }

  /** The check takes the expected command and rejects any other, within the block
      and whatever the leftover byte, if and only if the two are equal or neither is
      an extension of the other. */
  lemma CheckIsExactIff(name: seq<byte>, exp: seq<byte>)
    ensures (forall junk: byte :: Compare(name + [junk], exp) == if name == exp then Same else Different)
       <==> name == exp || (!(exp <= name) && !(name <= exp))
  {
    if |exp| <= |name| {
      forall junk: byte
        ensures Compare(name + [junk], exp) == if exp <= name then Same else Different
      {
        NoLongerThanName(name, exp, junk);
      }
      assert Compare(name + [NUL], exp) == if exp <= name then Same else Different;
    } else if name <= exp {
      LongerThanName(name, exp, exp[|name|]);
    } else {
      forall junk: byte
        ensures Compare(name + [junk], exp) == Different
      {
        LongerThanName(name, exp, junk);
      }
    }
  }

  /** "a" passes for "ab" or not, depending on the byte behind it; checked against
      "abk", the comparison may leave the block; and "ab" always passes for "a". */
  lemma LeftoverDecides()
    ensures Compare([LETTER_A] + [LETTER_B], [LETTER_A, LETTER_B]) == Same
    ensures Compare([LETTER_A] + [NUL], [LETTER_A, LETTER_B]) == Different
    ensures Compare([LETTER_A] + [LETTER_B], [LETTER_A, LETTER_B, LETTER_K]) == OutOfBlock
    ensures Compare([LETTER_A] + [NUL], [LETTER_A, LETTER_B, LETTER_K]) == Different
    ensures forall junk: byte :: Compare([LETTER_A, LETTER_B] + [junk], [LETTER_A]) == Same
  {
    CompareIs([LETTER_A] + [LETTER_B], [LETTER_A, LETTER_B]);
    CompareIs([LETTER_A] + [LETTER_B], [LETTER_A, LETTER_B, LETTER_K]);
    LongerThanName([LETTER_A], [LETTER_A, LETTER_B], NUL);
    LongerThanName([LETTER_A], [LETTER_A, LETTER_B, LETTER_K], NUL);
    forall junk: byte
      ensures Compare([LETTER_A, LETTER_B] + [junk], [LETTER_A]) == Same
    {
      NoLongerThanName([LETTER_A, LETTER_B], [LETTER_A], junk);
    }
  }

  // ---- a stream of frames -------------------------------------------------

  datatype Message = Message(cmd: seq<byte>, pairs: seq<Pair>)

  predicate HasKey(pairs: seq<Pair>, key: seq<byte>) {
    exists i | 0 <= i < |pairs| :: pairs[i].key == key
  }

  /** A message that fits, and is not for someone else. */
  predicate SendableMessage(m: Message) {
    && SendableName(m.cmd) && AllSendable(m.pairs) && !HasKey(m.pairs, THRID)
    && PMII_COMMANDLEN_SIZE + |Body(m.cmd, m.pairs)| < PMII_MAX_COMMAND_LEN
  }

  /** Pair i is the first with this key. */
  predicate FirstAt(pairs: seq<Pair>, key: seq<byte>, i: nat)
    requires i < |pairs|
  {
    pairs[i].key == key && forall j | 0 <= j < i :: pairs[j].key != key
  }

  /** getval finds the first stored pair of the key, or runs into the pointers behind
      the stored pairs, if there are any. */
  lemma {:induction false} GetValIs(pairs: seq<Pair>, nPairs: int, key: seq<byte>)
    requires |pairs| <= nPairs
    ensures HasKey(pairs, key) <==> GetVal(pairs, nPairs, key).Present?
    ensures !HasKey(pairs, key) ==> GetVal(pairs, nPairs, key) == if |pairs| == nPairs then Absent else NoPair
    ensures forall i | 0 <= i < |pairs| && FirstAt(pairs, key, i) ::
              GetVal(pairs, nPairs, key) == Present(pairs[i].value)
  {
    if pairs != [] {
      assert forall i | 0 < i < |pairs| && FirstAt(pairs, key, i) :: FirstAt(pairs[1..], key, i - 1);
      GetValIs(pairs[1..], nPairs - 1, key);
      if HasKey(pairs[1..], key) {
        var j :| 0 <= j < |pairs[1..]| && pairs[1..][j].key == key;
        assert pairs[j + 1].key == key;
      }
    }
  }

  /** The first frame of a stream is read back for whoever asks, and takes six bytes
      plus the decoded length. */
  lemma FrameRoundTrip(m: Message, rest: seq<byte>, junk: byte, self: Address, last: Option<Address>, scan: Scanner)
    requires SendableMessage(m)
    ensures TakeFrame(Frame(m.cmd, m.pairs) + rest, junk, self, last, scan) == Stored(self, Delivered(m, junk))
    ensures AfterFrame(Frame(m.cmd, m.pairs) + rest) == rest
    ensures |Frame(m.cmd, m.pairs)| == PMII_COMMANDLEN_SIZE + Atoi(Frame(m.cmd, m.pairs)[..PMII_COMMANDLEN_SIZE])
  {
    FrameDecodes(m, rest, junk);
    GetValIs(m.pairs, |m.pairs|, THRID);
  }

  lemma FrameDecodes(m: Message, rest: seq<byte>, junk: byte)
    requires SendableMessage(m)
    ensures ReadFrame(Frame(m.cmd, m.pairs) + rest, junk) == Some(Delivered(m, junk))
    ensures AfterFrame(Frame(m.cmd, m.pairs) + rest) == rest
    ensures |Frame(m.cmd, m.pairs)| == PMII_COMMANDLEN_SIZE + Atoi(Frame(m.cmd, m.pairs)[..PMII_COMMANDLEN_SIZE])
  {
    var body := Body(m.cmd, m.pairs);
    var frame := Frame(m.cmd, m.pairs);
    var stream := frame + rest;
    LengthFieldDecodes(|body|);
    assert frame[..PMII_COMMANDLEN_SIZE] == LengthField(|body|);
    assert stream[..PMII_COMMANDLEN_SIZE] == LengthField(|body|);
    assert stream[PMII_COMMANDLEN_SIZE..PMII_COMMANDLEN_SIZE + |body|] == body;
    assert stream[PMII_COMMANDLEN_SIZE + |body|..] == rest;
    BodyRoundTrip(m.cmd, m.pairs, junk);
  }

  /** The bytes of several commands written one after the other. */
  function Frames(ms: seq<Message>): seq<byte>
    requires forall i | 0 <= i < |ms| :: SendableMessage(ms[i])
  {
    if ms == [] then []
    else
      assert SendableMessage(ms[0]);
      Frame(ms[0].cmd, ms[0].pairs) + Frames(ms[1..])
  }

  /** Calls of the reader, one for every byte of junk, each answered by the next
      frame. */
  function ReadFrames(stream: seq<byte>, junk: seq<byte>, self: Address, scan: Scanner)
    : Option<(seq<Command>, seq<byte>)>
    decreases |junk|
  {
    if junk == [] then Some(([], stream))
    else
      var taken := TakeFrame(stream, junk[0], self, None, scan);
      if !taken.Stored? || taken.target != self then None
      else
        match ReadFrames(AfterFrame(stream), junk[1..], self, scan)
        case None => None
        case Some((cs, end)) => Some(([taken.command] + cs, end))
  }

  /** What the reader makes of a message. */
  function Delivered(m: Message, junk: byte): Command {
    Command(m.cmd + [junk], |m.pairs|, m.pairs)
  }

  function Received(ms: seq<Message>, junk: seq<byte>): (cs: seq<Command>)
    requires |junk| == |ms|
    ensures |cs| == |ms| && forall i | 0 <= i < |ms| :: cs[i] == Delivered(ms[i], junk[i])
  {
    if ms == [] then [] else [Delivered(ms[0], junk[0])] + Received(ms[1..], junk[1..])
  }

  /** Stream framing: repeated reads recover exactly the sequence written. */
  lemma {:induction false} StreamRoundTrip(ms: seq<Message>, rest: seq<byte>, junk: seq<byte>, self: Address,
                                           scan: Scanner)
    requires (forall i | 0 <= i < |ms| :: SendableMessage(ms[i])) && |junk| == |ms|
    ensures ReadFrames(Frames(ms) + rest, junk, self, scan) == Some((Received(ms, junk), rest))
  {
    if ms == [] {
      assert Frames(ms) + rest == rest;
    } else {
      var m, more := ms[0], ms[1..];
      assert Frames(ms) + rest == Frame(m.cmd, m.pairs) + (Frames(more) + rest);
      FrameRoundTrip(m, Frames(more) + rest, junk[0], self, None, scan);
      StreamRoundTrip(more, rest, junk[1..], self, scan);
    }
  }

  // ---- the two passes of the reader ---------------------------------------

  /** Number of parse_keyval calls that succeed from here on. */
  function Successes(t: seq<byte>): nat
    requires |t| >= 1
    decreases |t|
  {
    if |t| == 1 then 0
    else
      match ParseItem(t)
      case None => 0
      case Some(item) => ParseItemBound(t); 1 + Successes(t[item.used..])
  }

  /** A value that the second pass accepts ends at a `;` that the first counts. */
  lemma {:induction false} CountAtScan(t: seq<byte>)
    requires Scan(t).Stopped?
    ensures Scan(t).used + 1 <= |t| && CountPairs(t) == 1 + CountPairs(t[Scan(t).used + 1..])
  {
    ScanBound(t);
    var u := Scan(t).used;
    if t[0] != SEMI {
      CountAtScan(t[1..]);
      assert t[1..][u..] == t[u + 1..];
    } else if t[1] == SEMI {
      CountAtScan(t[2..]);
      assert t[2..][u - 1..] == t[u + 1..];
    }
  }

  /** Whatever precedes the `=`, the first pass counts at least what follows it. */
  lemma {:induction false} CountFromKey(t: seq<byte>, k: nat)
    requires k < |t| && t[k] == EQUALS
    ensures CountPairs(t) >= CountPairs(t[k + 1..])
    decreases |t|
  {
    if k > 0 {
      if t[0] == t[1] == SEMI {
        CountFromKey(t[2..], k - 2);
        assert t[2..][k - 1..] == t[k + 1..];
      } else {
        CountFromKey(t[1..], k - 1);
        assert t[1..][k..] == t[k + 1..];
      }
    }
  }

  lemma {:induction false} KeyLengthStops(t: seq<byte>)
    requires KeyLength(t) < |t| - 1
    ensures t[KeyLength(t)] == EQUALS
  {
    if t[0] != EQUALS { KeyLengthStops(t[1..]); }
  }

  /** Two passes agree: for every buffer, the first pass counts at least as many
      pairs as the second parses. */
  lemma {:induction false} FirstPassCoversSecond(t: seq<byte>)
    requires |t| >= 1
    ensures Successes(t) <= CountPairs(t)
    decreases |t|
  {
    if |t| > 1 && ParseItem(t).Some? {
      var item := ParseItem(t).value;
      ParseItemBound(t);
      var k := KeyLength(t);
      KeyLengthStops(t);
      CountFromKey(t, k);
      CountAtScan(t[k + 1..]);
      assert t[k + 1..][Scan(t[k + 1..]).used + 1..] == t[item.used..];
      FirstPassCoversSecond(t[item.used..]);
    }
  }

  lemma {:induction false} ParsedAreSuccesses(t: seq<byte>)
    requires |t| >= 1 && ParsePairs(t).Some?
    ensures |ParsePairs(t).value| == Successes(t)
    decreases |t|
  {
    if |t| > 1 {
      ParseItemBound(t);
      ParsedAreSuccesses(t[ParseItem(t).value.used..]);
    }
  }

  /** So every pair of an accepted command has a slot in the array of nPairs. */
  lemma PairsFitTheirArray(body: seq<byte>, junk: byte)
    requires Decode(body, junk).Some?
    ensures |Decode(body, junk).value.pairs| <= Decode(body, junk).value.nPairs
  {
    var t := body + [NUL];
    ParseItemBound(t);
    var rest := t[ParseItem(t).value.used..];
    FirstPassCoversSecond(t);
    ParsedAreSuccesses(rest);
  }

  lemma {:induction false} CountKey(key: seq<byte>, rest: seq<byte>)
    requires |rest| >= 2
    ensures CountPairs(key + [EQUALS] + rest) == LoneSemis(key) + CountPairs(rest)
    decreases |key|
  {
    var t := key + [EQUALS] + rest;
    if key == [] {
      assert t[1..] == rest;
    } else {
      assert t[1..] == key[1..] + [EQUALS] + rest;
      if |key| > 1 && key[0] == key[1] == SEMI {
        assert t[2..] == key[2..] + [EQUALS] + rest;
        CountKey(key[2..], rest);
      } else {
        CountKey(key[1..], rest);
      }
    }
  }

  /** No key of the items from here on holds such a `;`. */
  predicate PlainKeys(t: seq<byte>)
    requires |t| >= 1
    decreases |t|
  {
    |t| == 1 || (match ParseItem(t)
                 case None => true
                 case Some(item) => ParseItemBound(t); LoneSemis(item.key) == 0 && PlainKeys(t[item.used..]))
  }

  lemma CountKeyAndValue(t: seq<byte>, key: seq<byte>, rest: seq<byte>, after: seq<byte>)
    requires t == key + [EQUALS] + rest && Scan(rest).Stopped?
    requires Scan(rest).used + 1 <= |rest| && after == rest[Scan(rest).used + 1..]
    ensures CountPairs(t) == LoneSemis(key) + 1 + CountPairs(after)
  {
    ScanBound(rest);
    CountAtScan(rest);
    CountKey(key, rest);
  }

  /** An item is its key, the `=`, and what its value was scanned from. */
  lemma ItemParts(t: seq<byte>)
    requires |t| > 1 && ParseItem(t).Some?
    ensures var item, rest := ParseItem(t).value, t[KeyLength(t) + 1..];
            && item.used < |t| && t == item.key + [EQUALS] + rest && Scan(rest).Stopped?
            && Scan(rest).used + 1 <= |rest| && t[item.used..] == rest[Scan(rest).used + 1..]
  {
    ParseItemBound(t);
    KeyLengthStops(t);
    ScanBound(t[KeyLength(t) + 1..]);
  }

  lemma CountItem(t: seq<byte>)
    requires |t| > 1 && ParseItem(t).Some?
    ensures var item := ParseItem(t).value;
            item.used < |t| && CountPairs(t) == LoneSemis(item.key) + 1 + CountPairs(t[item.used..])
  {
    ItemParts(t);
    var item := ParseItem(t).value;
    CountKeyAndValue(t, item.key, t[KeyLength(t) + 1..], t[item.used..]);
  }

  lemma {:induction false} PassesAgreeIff(t: seq<byte>)
    requires |t| >= 1 && ParsePairs(t).Some?
    ensures CountPairs(t) == Successes(t) <==> PlainKeys(t)
    decreases |t|
  {
    if |t| > 1 {
      CountItem(t);
      ParseItemBound(t);
      var rest := t[ParseItem(t).value.used..];
      FirstPassCoversSecond(rest);
      PassesAgreeIff(rest);
    }
  }

  /** The array of an accepted command is filled if and only if no key holds a `;`
      that is not doubled; otherwise its last pointers are never assigned. */
  lemma ArrayIsFilledIff(body: seq<byte>, junk: byte)
    requires Decode(body, junk).Some?
    ensures |Decode(body, junk).value.pairs| == Decode(body, junk).value.nPairs <==> PlainKeys(body + [NUL])
  {
    var t := body + [NUL];
    ParseItemBound(t);
    var first := ParseItem(t).value;
    var rest := t[first.used..];
    ParsedAreSuccesses(rest);
    CountItem(t);
    PassesAgreeIff(rest);
    FirstPassCoversSecond(rest);
  }

  // ---- who gets a command -------------------------------------------------

  /** What the reader does with a body. */
  function TakeBody(body: seq<byte>, junk: byte, self: Address, last: Option<Address>, scan: Scanner): Handover {
    match Decode(body, junk)
    case None => Failed
    case Some(c) => HandOver(c, self, last, scan)
  }

  /** The address in the first thrid of the pairs. */
  function Addressee(pairs: seq<Pair>, scan: Scanner): Option<Address>
    requires HasKey(pairs, THRID)
  {
    GetValIs(pairs, |pairs|, THRID);
    Pointer(GetVal(pairs, |pairs|, THRID).value, scan)
  }

  /** ... is what sscanf makes of the value of that pair, up to a zero; no value, no
      address. */
  lemma AddresseeIs(pairs: seq<Pair>, i: nat, scan: Scanner)
    requires i < |pairs| && FirstAt(pairs, [116, 104, 114, 105, 100], i)
    ensures HasKey(pairs, THRID)
    ensures Addressee(pairs, scan) == if pairs[i].value == [] then None else scan(CString(pairs[i].value))
  {
    assert pairs[i].key == THRID;
    GetValIs(pairs, |pairs|, THRID);
  }

  lemma {:induction false} FoundAlike(pairs: seq<Pair>, n: int, key: seq<byte>)
    requires HasKey(pairs, key) && |pairs| <= n
    ensures GetVal(pairs, n, key) == GetVal(pairs, |pairs|, key)
  {
    if pairs[0].key != key {
      var j :| 0 <= j < |pairs| && pairs[j].key == key;
      assert pairs[1..][j - 1].key == key;
      FoundAlike(pairs[1..], n - 1, key);
    }
  }

  /** For every body, what becomes of it. */
  lemma HandoverIs(body: seq<byte>, junk: byte, self: Address, last: Option<Address>, scan: Scanner)
    ensures var h := TakeBody(body, junk, self, last, scan);
            match Decode(body, junk)
            case None => h == Failed
            case Some(c) =>
              if !HasKey(c.pairs, [116, 104, 114, 105, 100]) then
                h == if PlainKeys(body + [NUL]) then Stored(self, c) else UnsetSlot
              else
                match Addressee(c.pairs, scan)
                case Some(a) => h == Stored(a, c)
                case None => h == if last.Some? then Stored(last.value, c) else UnsetTarget
  {
    if Decode(body, junk).Some? {
      var c := Decode(body, junk).value;
      PairsFitTheirArray(body, junk);
      ArrayIsFilledIff(body, junk);
      GetValIs(c.pairs, c.nPairs, THRID);
      if HasKey(c.pairs, THRID) { FoundAlike(c.pairs, c.nPairs, THRID); }
    }
  }

  /** The command reaches the caller if and only if the body decodes, and either no
      pair is a thrid and no key holds a `;` that is not doubled, or the first thrid
      is the address of the caller. */
  lemma ReachesCallerIff(body: seq<byte>, junk: byte, self: Address, last: Option<Address>, scan: Scanner)
    requires last != Some(self)
    ensures var h := TakeBody(body, junk, self, last, scan);
            h.Stored? && h.target == self
            <==> && Decode(body, junk).Some?
                 && var pairs := Decode(body, junk).value.pairs;
                    if HasKey(pairs, [116, 104, 114, 105, 100]) then Addressee(pairs, scan) == Some(self)
                    else PlainKeys(body + [NUL])
  {
    HandoverIs(body, junk, self, last, scan);
  }

  /** The command "a" with the pair thrid=v: it decodes, and is written through a
      pointer that nothing assigned, as "v" is no address. */
  lemma ThridIsFollowed(junk: byte, self: Address, scan: Scanner)
    requires scan([LETTER_V]) == None
    ensures THRID == [116, 104, 114, 105, 100]
    ensures Decode(Body([LETTER_A], [Pair(THRID, [LETTER_V])]), junk)
         == Some(Command([LETTER_A] + [junk], 1, [Pair(THRID, [LETTER_V])]))
    ensures TakeBody(Body([LETTER_A], [Pair(THRID, [LETTER_V])]), junk, self, None, scan) == UnsetTarget
  {
    var p := Pair(THRID, [LETTER_V]);
    NoLoneSemis(THRID);
    BodyRoundTrip([LETTER_A], [p], junk);
    CStringOf([LETTER_V]);
    assert GetVal([p], 1, THRID) == Present([LETTER_V]);
  }

  /** The command "a;b" with the pair k=v: the second pointer of its array is followed
      although nothing assigned it. */
  lemma SplitNameIsFollowed(junk: byte, self: Address, last: Option<Address>, scan: Scanner)
    ensures TakeBody(Body([LETTER_A, SEMI, LETTER_B], [Pair([LETTER_K], [LETTER_V])]), junk, self, last, scan)
            == UnsetSlot
  {
    SemicolonSplitsName(junk);
    var pairs := [Pair([LETTER_B, SEMI, LETTER_K], [LETTER_V])];
    assert [LETTER_B, SEMI, LETTER_K][0] != THRID[0];
    assert pairs[1..] == [] && GetVal(pairs, 2, THRID) == GetVal([], 1, THRID);
  }

  // ---- the keys that come through -----------------------------------------

  lemma {:induction false} KeyLengthBefore(key: seq<byte>, rest: seq<byte>)
    requires EQUALS in key && |rest| >= 1
    ensures KeyLength(key + rest) < |key|
  {
    if key[0] != EQUALS {
      KeyLengthBefore(key[1..], rest);
      assert (key + rest)[1..] == key[1..] + rest;
    }
  }

  lemma {:induction false} CStringIsPrefix(s: seq<byte>)
    ensures |CString(s)| <= |s|
  {
    if s != [] && s[0] != NUL { CStringIsPrefix(s[1..]); }
  }

  /** A value that is followed by another `;` is read on. */
  lemma {:induction false} ScanReadsOn(v: seq<byte>, rest: seq<byte>)
    requires |rest| >= 1 && rest[0] == SEMI
    ensures Scan(Escape(v) + [SEMI] + rest).Stopped? ==> |Scan(Escape(v) + [SEMI] + rest).value| > |v|
  {
    if v == [] {
      assert Escape(v) + [SEMI] + rest == [SEMI, SEMI] + rest[1..];
      if |rest| > 1 { ScanOne(SEMI, rest[1..]); }
    } else {
      ScanReadsOn(v[1..], rest);
      EscapeFirst(v, rest);
      ScanOne(v[0], Escape(v[1..]) + [SEMI] + rest);
    }
  }

  /** If a pair is read back in front of any bytes, its key holds no `=`, and what
      follows does not start with `;`. */
  lemma PairReadBack(p: Pair, rest: seq<byte>)
    requires NUL !in p.key && |rest| >= 1 && ParseItem(PairBytes(p) + rest).Some?
    requires CString(ParseItem(PairBytes(p) + rest).value.key) == p.key
    requires ParseItem(PairBytes(p) + rest).value.value == p.value
    ensures EQUALS !in p.key && rest[0] != SEMI
  {
    var t := PairBytes(p) + rest;
    var tail := Escape(p.value) + [SEMI] + rest;
    assert t == p.key + [EQUALS] + tail == p.key + ([EQUALS] + tail);
    if EQUALS in p.key {
      KeyLengthBefore(p.key, [EQUALS] + tail);
      CStringIsPrefix(t[..KeyLength(t)]);
    } else {
      KeyLengthOf(p.key, tail);
      assert t[|p.key| + 1..] == tail;
      if rest[0] == SEMI { ScanReadsOn(p.value, rest); }
    }
  }

  /** Pairs that are read back and counted right have keys that come through; of the
      first `;` of the first key nothing is known here. */
  lemma {:induction false} KeysReadBack(pairs: seq<Pair>)
    requires forall i | 0 <= i < |pairs| :: NUL !in pairs[i].key && WithinLimits(pairs[i])
    requires ParsePairs(PairsBytes(pairs) + [NUL]) == Some(pairs)
    requires CountPairs(PairsBytes(pairs) + [NUL]) == |pairs|
    ensures forall i | 0 <= i < |pairs| :: EQUALS !in pairs[i].key && LoneSemis(pairs[i].key) == 0
    ensures forall i | 1 <= i < |pairs| :: CarriedKey(pairs[i].key)
  {
    if pairs != [] {
      var p, more := pairs[0], pairs[1..];
      var rest := PairsBytes(more) + [NUL];
      PairsAndZero(pairs);
      FirstReadBack(p, more, rest);
      KeysReadBack(more);
      RestBegins(more);
      forall i | 1 <= i < |pairs|
        ensures CarriedKey(pairs[i].key)
      {
        assert pairs[i] == more[i - 1];
      }
    }
  }

  lemma RestBegins(pairs: seq<Pair>)
    ensures pairs != [] && pairs[0].key != [] ==> (PairsBytes(pairs) + [NUL])[0] == pairs[0].key[0]
  {
  }

  lemma FirstReadBack(p: Pair, more: seq<Pair>, rest: seq<byte>)
    requires NUL !in p.key && WithinLimits(p) && |rest| >= 1
    requires ParsePairs(PairBytes(p) + rest) == Some([p] + more) && CountPairs(PairBytes(p) + rest) == 1 + |more|
    ensures EQUALS !in p.key && LoneSemis(p.key) == 0 && rest[0] != SEMI
    ensures ParsePairs(rest) == Some(more) && CountPairs(rest) == |more|
  {
    var t := PairBytes(p) + rest;
    ParsedFirst(t, p, more);
    PairReadBack(p, rest);
    RestOfPair(p, rest);
    FirstPassCoversSecond(rest);
    ParsedAreSuccesses(rest);
  }

  lemma ParsedFirst(t: seq<byte>, p: Pair, more: seq<Pair>)
    requires |t| >= 1 && ParsePairs(t) == Some([p] + more)
    ensures ParseItem(t).Some?
    ensures var item := ParseItem(t).value;
            && CString(item.key) == p.key && item.value == p.value
            && item.used < |t| && ParsePairs(t[item.used..]) == Some(more)
  {
    assert |[p] + more| > 0;
    ParseItemBound(t);
    var item := ParseItem(t).value;
    var front, parsed := [Pair(CString(item.key), item.value)], ParsePairs(t[item.used..]).value;
    assert (front + parsed)[0] == front[0] && (front + parsed)[1..] == parsed;
    assert ([p] + more)[0] == p && ([p] + more)[1..] == more;
  }

  lemma RestOfPair(p: Pair, rest: seq<byte>)
    requires EQUALS !in p.key && WithinLimits(p) && |rest| >= 1 && rest[0] != SEMI
    ensures ParseItem(PairBytes(p) + rest) == Some(Item(p.key, p.value, |PairBytes(p)|))
    ensures (PairBytes(p) + rest)[|PairBytes(p)|..] == rest
    ensures CountPairs(PairBytes(p) + rest) == LoneSemis(p.key) + 1 + CountPairs(rest)
  {
    ParsePairBytes(p, rest);
    PairSplits(p, rest);
    CountPairBytes(p, rest);
  }

  /** Keys are not escaped either: with a command name that comes through, the pairs
      are read back and counted right if and only if every key holds no `=`, no `;`
      in front and no `;` that is not doubled. */
  lemma KeysSurviveIff(cmd: seq<byte>, pairs: seq<Pair>, junk: byte)
    requires SendableName(cmd)
    requires forall i | 0 <= i < |pairs| :: NUL !in pairs[i].key && WithinLimits(pairs[i])
    ensures Decode(Body(cmd, pairs), junk) == Some(Command(cmd + [junk], |pairs|, pairs))
       <==> forall i | 0 <= i < |pairs| :: CarriedKey(pairs[i].key)
  {
    if forall i | 0 <= i < |pairs| :: CarriedKey(pairs[i].key) {
      BodyRoundTrip(cmd, pairs, junk);
    }
    if Decode(Body(cmd, pairs), junk) == Some(Command(cmd + [junk], |pairs|, pairs)) {
      var all := [Pair(CMD, cmd)] + pairs;
      DecodedPairs(cmd, pairs, junk);
      KeysReadBack(all);
      forall i | 0 <= i < |pairs|
        ensures CarriedKey(pairs[i].key)
      {
        assert all[i + 1] == pairs[i];
      }
    }
  }

  /** The command is the first pair of its body. */
  lemma DecodedPairs(cmd: seq<byte>, pairs: seq<Pair>, junk: byte)
    requires SendableName(cmd)
    requires Decode(Body(cmd, pairs), junk) == Some(Command(cmd + [junk], |pairs|, pairs))
    ensures var all := [Pair(CMD, cmd)] + pairs;
            ParsePairs(PairsBytes(all) + [NUL]) == Some(all) && CountPairs(PairsBytes(all) + [NUL]) == |all|
  {
    var all := [Pair(CMD, cmd)] + pairs;
    var t := Body(cmd, pairs) + [NUL];
    EscapeNothing(cmd);
    assert all[1..] == pairs && PairsBytes(all) == PairBytes(Pair(CMD, cmd)) + PairsBytes(pairs);
    assert t == PairsBytes(all) + [NUL];
    ParseItemBound(t);
    SameFront(ParseItem(t).value.value, cmd, junk);
  }
}
