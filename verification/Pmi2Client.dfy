/** PMIi_ReadCommand, parse_keyval and PMIi_WriteSimpleCommand of pmi2_api.c,
    on byte buffers that they fill and rewrite in place. */
module Pmi2Client {
  import opened Wrappers
  import opened Pmi2Wire
  import opened Pmi2RoundTrip

  /** The connection to the process manager.  Every read and write moves an
      arbitrary positive number of bytes, up to the number asked for. */
  class Descriptor {
    var incoming: seq<byte>
    var outgoing: seq<byte>

    constructor (bytes: seq<byte>)
      ensures incoming == bytes && outgoing == []
    {
      incoming, outgoing := bytes, [];
    }

    method Read(max: nat) returns (got: seq<byte>)
      requires max > 0
      modifies this`incoming
      ensures got == [] <==> old(incoming) == []
      ensures |got| <= max && got + incoming == old(incoming)
    {
      if incoming == [] {
        return [];
      }
      var n :| 1 <= n <= max && n <= |incoming|;
      got, incoming := incoming[..n], incoming[n..];
    }

    method Write(bytes: seq<byte>) returns (n: nat)
      requires bytes != []
      modifies this`outgoing
      ensures 1 <= n <= |bytes| && outgoing == old(outgoing) + bytes[..n]
    {
      n :| 1 <= n <= |bytes|;
      outgoing := outgoing + bytes[..n];
    }
  }

  // ---- reading ------------------------------------------------------------

  /** Read until the first n bytes of buf are filled. */
  method Fill(fd: Descriptor, buf: array<byte>, n: nat) returns (ok: bool)
    requires 0 < n <= buf.Length
    modifies fd`incoming, buf
    ensures ok <==> |old(fd.incoming)| >= n
    ensures ok ==> buf[..n] == old(fd.incoming)[..n] && fd.incoming == old(fd.incoming)[n..]
    ensures !ok ==> fd.incoming == []
    ensures forall i | n <= i < buf.Length :: buf[i] == old(buf[i])
  {
    ghost var was := fd.incoming;
    var offset := 0;
    while offset < n
      invariant 0 <= offset <= n && offset <= |was|
      invariant buf[..offset] == was[..offset] && fd.incoming == was[offset..]
      invariant forall i | n <= i < buf.Length :: buf[i] == old(buf[i])
    {
      var got := fd.Read(n - offset);
      if got == [] {
        return false;
      }
      assert got == was[offset..offset + |got|];
      forall i | 0 <= i < |got| {
        buf[offset + i] := got[i];
      }
      offset := offset + |got|;
    }
    ok := true;
  }

  /** What is left to count at position c, within a round of the first pass. */
  function CountAt(s: seq<byte>, c: nat): nat
    requires c <= |s|
  {
    if c == |s| - 1 then 1 else CountPairs(s[c..])
  }

  lemma CountAtStep(s: seq<byte>, c: nat)
    requires c + 1 < |s|
    ensures s[c] != SEMI ==> CountAt(s, c) == CountAt(s, c + 1)
    ensures s[c] == SEMI == s[c + 1] ==> c + 2 <= |s| && CountAt(s, c) == CountPairs(s[c + 2..])
    ensures s[c] == SEMI != s[c + 1] ==> CountAt(s, c) == 1 + CountPairs(s[c + 1..])
  {
    var t := s[c..];
    assert t[1..] == s[c + 1..];
    if s[c] == SEMI == s[c + 1] {
      assert t[2..] == s[c + 2..];
    }
  }

  /** One round: how far the cursor moves, and whether a pair is counted. */
  method CountStep(buf: array<byte>, start: nat) returns (c: nat, counted: bool)
    requires start < buf.Length - 1 && buf[buf.Length - 1] == NUL
    ensures start < c <= buf.Length
    ensures CountPairs(buf[..][start..]) == (if counted then 1 else 0) + CountPairs(buf[..][c..])
  {
    c := start;
    while c < buf.Length - 1 && buf[c] != SEMI
      invariant start <= c < buf.Length
      invariant CountPairs(buf[..][start..]) == CountAt(buf[..], c)
    {
      CountAtStep(buf[..], c);
      c := c + 1;
    }
    if c < buf.Length - 1 {
      CountAtStep(buf[..], c);
    }
    if buf[c] == SEMI && buf[c + 1] == SEMI {
      c, counted := c + 2, false;
    } else {
      c, counted := c + 1, true;
    }
  }

  /** The first pass over a command buffer. */
  method CountInBuffer(buf: array<byte>) returns (num: nat)
    requires buf.Length >= 1 && buf[buf.Length - 1] == NUL
    ensures num == CountPairs(buf[..])
  {
    var c := 0;
    num := 0;
    assert buf[..][0..] == buf[..];
    while c < buf.Length - 1
      invariant 0 <= c <= buf.Length
      invariant num + CountPairs(buf[..][c..]) == CountPairs(buf[..])
      decreases buf.Length - c
    {
      var next, counted := CountStep(buf, c);
      c := next;
      if counted {
        num := num + 1;
      }
    }
  }

  /** Where parse_keyval left a key and a value in the buffer. */
  datatype Slot = Slot(keyEnd: nat, valStart: nat, valLen: nat, next: nat)

  /** The slot holds the item: the key followed by a zero byte, then the
      unescaped value. */
  ghost predicate Holds(s: seq<byte>, c: nat, slot: Slot, item: Item) {
    && slot.keyEnd == c + |item.key| && slot.valStart == slot.keyEnd + 1
    && slot.valLen == |item.value| && slot.next == c + item.used
    && slot.valStart + slot.valLen < slot.next <= |s|
    && s[c..slot.keyEnd] == item.key && s[slot.keyEnd] == NUL
    && s[slot.valStart..slot.valStart + slot.valLen] == item.value
  }

  lemma AheadAhead(front: seq<byte>, x: byte, n: nat, m: nat, r: Scanned)
    ensures Ahead(front, n, Ahead([x], m, r)) == Ahead(front + [x], n + m, r)
  {
    if r.Stopped? {
      assert front + ([x] + r.value) == (front + [x]) + r.value;
    }
  }

  lemma AheadNothing(r: Scanned)
    ensures Ahead([], 0, r) == r
  {
    if r.Stopped? {
      assert [] + r.value == r.value;
    }
  }

  /** One round of the unescape loop at read position c of the buffer s. */
  lemma ScanRound(s: seq<byte>, c: nat, front: seq<byte>, n: nat)
    requires c + 1 < |s| && s[|s| - 1] == NUL
    ensures s[c] != SEMI ==> Ahead(front, n, Scan(s[c..])) == Ahead(front + [s[c]], n + 1, Scan(s[c + 1..]))
    ensures s[c] == s[c + 1] == SEMI ==>
              c + 2 < |s| && Ahead(front, n, Scan(s[c..])) == Ahead(front + [SEMI], n + 2, Scan(s[c + 2..]))
    ensures s[c] == SEMI != s[c + 1] ==> Scan(s[c..]) == Stopped([], 0)
  {
    var t := s[c..];
    assert t[1..] == s[c + 1..];
    if s[c] != SEMI {
      AheadAhead(front, s[c], n, 1, Scan(s[c + 1..]));
    } else if s[c + 1] == SEMI {
      assert t[2..] == s[c + 2..];
      AheadAhead(front, SEMI, n, 2, Scan(s[c + 2..]));
    }
  }

  method FindKey(buf: array<byte>, start: nat) returns (c: nat)
    requires start < buf.Length
    ensures start <= c < buf.Length && c == start + KeyLength(buf[..][start..])
    ensures c < buf.Length - 1 ==> buf[c] == EQUALS
  {
    ghost var s := buf[..];
    c := start;
    while c < buf.Length - 1 && buf[c] != EQUALS
      invariant start <= c < buf.Length
      invariant KeyLength(s[start..]) == c - start + KeyLength(s[c..])
    {
      assert s[c..][1..] == s[c + 1..];
      c := c + 1;
    }
    assert s[c..][0] == buf[c];
  }

  /** The state of the unescape loop: `was` is the buffer as it came in, `now`
      as it is, c the read and d the write cursor. */
  ghost predicate Unescaping(was: seq<byte>, now: seq<byte>, start: nat, c: nat, d: nat) {
    && start <= d <= c < |was| == |now| && was[|was| - 1] == NUL
    && (forall i | 0 <= i < start || c <= i < |was| :: now[i] == was[i])
    && Scan(was[start..]) == Ahead(now[start..d], c - start, Scan(was[c..]))
  }

  lemma UnescapeStart(was: seq<byte>, start: nat)
    requires start < |was| && was[|was| - 1] == NUL
    ensures Unescaping(was, was, start, start, start)
  {
    AheadNothing(Scan(was[start..]));
  }

  lemma UnescapeRound(was: seq<byte>, now: seq<byte>, start: nat, c: nat, d: nat, from: nat)
    requires Unescaping(was, now, start, c, d) && c + 1 < |was|
    requires if was[c] == SEMI then was[c + 1] == SEMI && from == c + 1 else from == c
    ensures Unescaping(was, now[d := now[from]], start, from + 1, d + 1)
  {
    var next := now[d := now[from]];
    ScanRound(was, c, now[start..d], c - start);
    assert next[start..d + 1] == now[start..d] + [was[from]];
  }

  lemma UnescapeEnd(was: seq<byte>, now: seq<byte>, start: nat, c: nat, d: nat)
    requires Unescaping(was, now, start, c, d)
    requires c + 1 < |was| ==> was[c] == SEMI != was[c + 1]
    ensures now[..start] == was[..start] && now[c..] == was[c..]
    ensures c == |was| - 1 <==> Scan(was[start..]).RanOut?
    ensures c < |was| - 1 ==> Scan(was[start..]) == Stopped(now[start..d], c - start)
  {
    if c + 1 < |was| {
      ScanRound(was, c, now[start..d], c - start);
    }
  }

  /** One round of the unescape loop; it stops at a `;` that is not doubled. */
  method UnescapeStep(buf: array<byte>, c: nat, d: nat, ghost was: seq<byte>, ghost start: nat)
    returns (stop: bool, c': nat, d': nat)
    requires Unescaping(was, buf[..], start, c, d) && c + 1 < buf.Length
    modifies buf
    ensures stop ==> buf[..] == old(buf[..]) && was[c] == SEMI != was[c + 1]
    ensures !stop ==> c < c' && Unescaping(was, buf[..], start, c', d')
  {
    ghost var now := buf[..];
    stop, c', d' := false, c, d;
    if buf[c] == SEMI {
      if buf[c + 1] != SEMI {
        stop := true;
        return;
      }
      c' := c + 1;
    }
    UnescapeRound(was, now, start, c, d, c');
    buf[d] := buf[c'];
    assert buf[..] == now[d := now[c']];
    c', d' := c' + 1, d + 1;
  }

  /** Unescape a value in place: the write cursor d stays at or behind the read
      cursor c, so no byte is overwritten before it is read. */
  method UnescapeInPlace(buf: array<byte>, start: nat) returns (c: nat, d: nat)
    requires start < buf.Length && buf[buf.Length - 1] == NUL
    modifies buf
    ensures start <= d <= c < buf.Length
    ensures buf[..][..start] == old(buf[..])[..start] && buf[..][c..] == old(buf[..])[c..]
    ensures c == buf.Length - 1 <==> Scan(old(buf[..])[start..]).RanOut?
    ensures c < buf.Length - 1 ==> Scan(old(buf[..])[start..]) == Stopped(buf[..][start..d], c - start)
  {
    c, d := start, start;
    UnescapeStart(buf[..], start);
    while c < buf.Length - 1
      invariant c < buf.Length && Unescaping(old(buf[..]), buf[..], start, c, d)
      decreases buf.Length - c
    {
      var stop, c', d' := UnescapeStep(buf, c, d, old(buf[..]), start);
      if stop {
        break;
      }
      c, d := c', d';
    }
    UnescapeEnd(old(buf[..]), buf[..], start, c, d);
  }

  /** Unescape the value at start and terminate it; c is the position of the `;`
      behind it, and d is where the unescaped value ends. */
  method ParseValue(buf: array<byte>, start: nat) returns (ok: bool, c: nat, d: nat)
    requires start < buf.Length && buf[buf.Length - 1] == NUL
    modifies buf
    ensures ok <==> Scan(old(buf[..])[start..]).Stopped? && |Scan(old(buf[..])[start..]).value| <= PMI2_MAX_VALLEN
    ensures ok ==> start <= d <= c < buf.Length - 1
    ensures ok ==> Scan(old(buf[..])[start..]) == Stopped(buf[..][start..d], c - start)
    ensures ok ==> buf[..][..start] == old(buf[..])[..start] && buf[..][c + 1..] == old(buf[..])[c + 1..]
  {
    c, d := UnescapeInPlace(buf, start);
    if c == buf.Length - 1 || d - start > PMI2_MAX_VALLEN {
      return false, c, d;
    }
    ghost var was, now := old(buf[..]), buf[..];
    buf[c] := NUL;
    assert buf[..] == now[c := NUL];
    assert now[c..][1..] == now[c + 1..] && was[c..][1..] == was[c + 1..];
    ok := true;
  }

  /** The key is in place and terminated, and nothing before it has changed. */
  lemma KeyInPlace(was: seq<byte>, now: seq<byte>, start: nat, keyEnd: nat)
    requires start <= keyEnd < |was| == |now| && now[..keyEnd + 1] == was[..keyEnd] + [NUL]
    ensures now[start..keyEnd] == was[start..keyEnd] && now[keyEnd] == NUL && now[..start] == was[..start]
  {
    assert forall i | 0 <= i <= keyEnd :: now[i] == now[..keyEnd + 1][i];
  }

  lemma ItemParsed(was: seq<byte>, now: seq<byte>, start: nat, keyEnd: nat, c: nat, d: nat)
    requires start <= keyEnd < d <= c < |was| - 1 && |now| == |was|
    requires keyEnd - start == KeyLength(was[start..]) <= PMI2_MAX_KEYLEN
    requires d - (keyEnd + 1) <= PMI2_MAX_VALLEN
    requires Scan(was[keyEnd + 1..]) == Stopped(now[keyEnd + 1..d], c - (keyEnd + 1))
    requires now[start..keyEnd] == was[start..keyEnd] && now[keyEnd] == NUL
    ensures ParseItem(was[start..]).Some?
    ensures Holds(now, start, Slot(keyEnd, keyEnd + 1, d - (keyEnd + 1), c + 1), ParseItem(was[start..]).value)
  {
    var t, k := was[start..], keyEnd - start;
    assert t[k + 1..] == was[keyEnd + 1..] && t[..k] == was[start..keyEnd];
    assert ParseItem(t) == Some(Item(t[..k], now[keyEnd + 1..d], k + 1 + (c - (keyEnd + 1)) + 1));
  }

  lemma SameTail(s: seq<byte>, t: seq<byte>, i: nat, j: nat)
    requires |s| == |t| && i <= j <= |s| && s[i..] == t[i..]
    ensures s[j..] == t[j..]
  {
    assert s[j..] == s[i..][j - i..] && t[j..] == t[i..][j - i..];
  }

  lemma ItemRejected(was: seq<byte>, start: nat, keyEnd: nat)
    requires start <= keyEnd < |was| && keyEnd - start == KeyLength(was[start..])
    requires keyEnd == |was| - 1 || keyEnd - start > PMI2_MAX_KEYLEN
          || Scan(was[keyEnd + 1..]).RanOut? || |Scan(was[keyEnd + 1..]).value| > PMI2_MAX_VALLEN
    ensures ParseItem(was[start..]).None?
  {
    if keyEnd < |was| - 1 {
      assert was[start..][keyEnd - start + 1..] == was[keyEnd + 1..];
    }
  }

  /** `was` is the buffer before, `cut` after the key was terminated, and `now` after
      the value was unescaped. */
  lemma KeyvalParsed(was: seq<byte>, cut: seq<byte>, now: seq<byte>, start: nat, keyEnd: nat, c: nat, d: nat)
    requires start <= keyEnd < d <= c < |was| - 1 && |now| == |cut| == |was|
    requires keyEnd - start == KeyLength(was[start..]) <= PMI2_MAX_KEYLEN
    requires d - (keyEnd + 1) <= PMI2_MAX_VALLEN
    requires cut[keyEnd + 1..] == was[keyEnd + 1..] && cut[..keyEnd + 1] == was[..keyEnd] + [NUL]
    requires Scan(cut[keyEnd + 1..]) == Stopped(now[keyEnd + 1..d], c - (keyEnd + 1))
    requires now[..keyEnd + 1] == cut[..keyEnd + 1] && now[c + 1..] == cut[c + 1..]
    ensures ParseItem(was[start..]).Some?
    ensures Holds(now, start, Slot(keyEnd, keyEnd + 1, d - (keyEnd + 1), c + 1), ParseItem(was[start..]).value)
    ensures now[..start] == was[..start] && now[c + 1..] == was[c + 1..]
  {
    KeyInPlace(was, now, start, keyEnd);
    ItemParsed(was, now, start, keyEnd, c, d);
    SameTail(cut, was, keyEnd + 1, c + 1);
  }

  method ParseKeyval(buf: array<byte>, start: nat) returns (r: Option<Slot>)
    requires start < buf.Length && buf[buf.Length - 1] == NUL
    modifies buf
    ensures ParseItem(old(buf[..])[start..]).None? <==> r.None?
    ensures r.Some? ==> Holds(buf[..], start, r.value, ParseItem(old(buf[..])[start..]).value)
    ensures r.Some? ==> buf[..][..start] == old(buf[..])[..start]
    ensures r.Some? ==> buf[..][r.value.next..] == old(buf[..])[r.value.next..]
  {
    hide KeyLength, Scan, ParseItem;
    ghost var was := buf[..];
    var keyEnd := FindKey(buf, start);
    if keyEnd == buf.Length - 1 || keyEnd - start > PMI2_MAX_KEYLEN {
      ItemRejected(was, start, keyEnd);
      return None;
    }
    buf[keyEnd] := NUL;
    var valStart := keyEnd + 1;
    assert buf[..][valStart..] == was[valStart..] && buf[..][..valStart] == was[..keyEnd] + [NUL];
    ghost var cut := buf[..];
    var ok, c, d := ParseValue(buf, valStart);
    if !ok {
      ItemRejected(was, start, keyEnd);
      return None;
    }
    KeyvalParsed(was, cut, buf[..], start, keyEnd, c, d);
    r := Some(Slot(keyEnd, valStart, d - valStart, c + 1));
  }

  lemma CStringRound(s: seq<byte>, start: nat, i: nat, end: nat)
    requires start <= i < end <= |s| && s[i] != NUL
    requires CString(s[start..end]) == s[start..i] + CString(s[i..end])
    ensures CString(s[start..end]) == s[start..i + 1] + CString(s[i + 1..end])
  {
    assert s[i..end][1..] == s[i + 1..end];
    assert s[start..i] + ([s[i]] + CString(s[i + 1..end])) == s[start..i + 1] + CString(s[i + 1..end]);
  }

  /** strlen and copy of the zero-terminated key at index start. */
  method CopyKey(buf: array<byte>, start: nat, end: nat) returns (key: seq<byte>)
    requires start <= end < buf.Length && buf[end] == NUL
    ensures key == CString(buf[..][start..end])
  {
    ghost var s := buf[..];
    var i := start;
    while buf[i] != NUL
      invariant start <= i <= end
      invariant CString(s[start..end]) == s[start..i] + CString(s[i..end])
      decreases end - i
    {
      CStringRound(s, start, i, end);
      i := i + 1;
    }
    key := buf[start..i];
  }

  function Joined(front: seq<Pair>, rest: Option<seq<Pair>>): Option<seq<Pair>> {
    match rest
    case None => None
    case Some(ps) => Some(front + ps)
  }

  /** The state of the second pass at position c of the buffer `was`. */
  ghost predicate Parsing(was: seq<byte>, now: seq<byte>, start: nat, c: nat, done: seq<Pair>, nPairs: nat) {
    && start <= c < |was| == |now| && was[|was| - 1] == NUL && now[c..] == was[c..]
    && |done| + Successes(was[c..]) <= nPairs
    && ParsePairs(was[start..]) == Joined(done, ParsePairs(was[c..]))
  }

  /** A parse_keyval call on t produces this pair and takes this many bytes. */
  ghost predicate ParsesTo(t: seq<byte>, pair: Pair, used: nat) {
    && |t| >= 1 && ParseItem(t).Some? && 0 < used < |t|
    && var item := ParseItem(t).value;
       pair == Pair(CString(item.key), item.value) && used == item.used
  }

  ghost predicate Parsed(s: seq<byte>, c: nat, pair: Pair, next: nat) {
    c < next < |s| && ParsesTo(s[c..], pair, next - c)
  }

  lemma ParsingRound(was: seq<byte>, now: seq<byte>, later: seq<byte>, start: nat, c: nat,
                     done: seq<Pair>, nPairs: nat, pair: Pair, next: nat)
    requires Parsing(was, now, start, c, done, nPairs) && c < |was| - 1 && |later| == |was|
    requires Parsed(now, c, pair, next) && later[next..] == now[next..]
    ensures |done| < nPairs
    ensures Parsing(was, later, start, next, done + [pair], nPairs)
  {
    var t := was[c..];
    assert t[next - c..] == was[next..] && now[c..][next - c..] == now[next..];
    JoinedStep(done, pair, ParsePairs(was[next..]));
  }

  /** parse_keyval, then create_keyval on what it left in the buffer. */
  method NextPair(buf: array<byte>, c: nat) returns (r: Option<Pair>, next: nat, valEnd: nat)
    requires c < buf.Length - 1 && buf[buf.Length - 1] == NUL
    modifies buf
    ensures r.None? ==> ParseItem(old(buf[..])[c..]).None?
    ensures r.Some? ==> Parsed(old(buf[..]), c, r.value, next) && buf[..][next..] == old(buf[..])[next..]
    ensures r.Some? ==> c < valEnd < next
  {
    next, valEnd := c, c;
    ParseItemBound(buf[..][c..]);
    var slot := ParseKeyval(buf, c);
    if slot.None? {
      return None, c, c;
    }
    var Slot(keyEnd, valStart, valLen, end) := slot.value;
    var key := CopyKey(buf, c, keyEnd);
    assert buf[valStart..valStart + valLen] == buf[..][valStart..valStart + valLen];
    valEnd := valStart + valLen;
    r, next := Some(Pair(key, buf[valStart..valEnd])), end;
  }

  lemma ParsingFails(was: seq<byte>, now: seq<byte>, start: nat, c: nat, done: seq<Pair>, nPairs: nat)
    requires Parsing(was, now, start, c, done, nPairs) && c < |was| - 1 && ParseItem(was[c..]).None?
    ensures ParsePairs(was[start..]).None?
  {
  }

  lemma ParsingEnds(was: seq<byte>, now: seq<byte>, start: nat, c: nat, done: seq<Pair>, nPairs: nat)
    requires Parsing(was, now, start, c, done, nPairs) && c == |was| - 1
    ensures ParsePairs(was[start..]) == Some(done)
  {
    assert done + [] == done;
  }

  /** One round of the second pass: the store to pairs[pairIndex] is in range. */
  method StoreNextPair(buf: array<byte>, pairs: array<Pair>, pairIndex: nat, c: nat,
                       ghost was: seq<byte>, ghost start: nat) returns (ok: bool, next: nat)
    requires pairIndex <= pairs.Length && c < buf.Length - 1
    requires Parsing(was, buf[..], start, c, pairs[..pairIndex], pairs.Length)
    modifies buf, pairs
    ensures ok ==> pairIndex < pairs.Length && c < next
    ensures ok ==> Parsing(was, buf[..], start, next, pairs[..pairIndex + 1], pairs.Length)
    ensures !ok ==> ParsePairs(was[start..]).None?
  {
    ghost var now, done := buf[..], pairs[..pairIndex];
    assert buf[buf.Length - 1] == now[c..][|now| - 1 - c] == NUL;
    var pair, end, _ := NextPair(buf, c);
    ok, next := pair.Some?, end;
    if ok {
      ParsingRound(was, now, buf[..], start, c, done, pairs.Length, pair.value, next);
      pairs[pairIndex] := pair.value;
      assert pairs[..pairIndex + 1] == done + [pair.value];
    } else {
      ParsingFails(was, now, start, c, done, pairs.Length);
    }
  }

  /** The second pass: parse the pairs behind the command into an array of
      nPairs, which is always large enough. */
  method ParseIntoArray(buf: array<byte>, start: nat, nPairs: nat) returns (r: Option<seq<Pair>>)
    requires start < buf.Length && buf[buf.Length - 1] == NUL
    requires Successes(buf[..][start..]) <= nPairs
    modifies buf
    ensures r == ParsePairs(old(buf[..])[start..])
  {
    ghost var was := buf[..];
    var pairs := new Pair[nPairs];
    var pairIndex, c := 0, start;
    JoinedNothing(ParsePairs(was[start..]));
    while c < buf.Length - 1
      invariant pairIndex <= nPairs && c < buf.Length
      invariant Parsing(was, buf[..], start, c, pairs[..pairIndex], nPairs)
      decreases buf.Length - c
    {
      var ok, next := StoreNextPair(buf, pairs, pairIndex, c, was, start);
      if !ok {
        return None;
      }
      pairIndex, c := pairIndex + 1, next;
    }
    ParsingEnds(was, buf[..], start, c, pairs[..pairIndex], nPairs);
    r := Some(pairs[..pairIndex]);
  }

  lemma JoinedNothing(r: Option<seq<Pair>>)
    ensures Joined([], r) == r
  {
    if r.Some? {
      assert [] + r.value == r.value;
    }
  }

  lemma JoinedStep(front: seq<Pair>, p: Pair, rest: Option<seq<Pair>>)
    ensures Joined(front, Joined([p], rest)) == Joined(front + [p], rest)
  {
    if rest.Some? {
      assert front + ([p] + rest.value) == front + [p] + rest.value;
    }
  }

  /** The array for the pairs behind the first one is large enough. */
  lemma SecondPassFits(t: seq<byte>, first: Pair, next: nat)
    requires ParsesTo(t, first, next)
    ensures Successes(t[next..]) <= CountPairs(t) - 1
  {
    FirstPassCoversSecond(t);
    assert Successes(t) == 1 + Successes(t[next..]);
  }

  /** What a command buffer decodes to, once its first pair has been parsed. */
  lemma DecodedFrom(t: seq<byte>, first: Pair, next: nat, junk: byte)
    requires ParsesTo(t, first, next)
    ensures DecodeTerminated(t, junk) == Assembled(first, junk, CountPairs(t), ParsePairs(t[next..]))
  {
    var item := ParseItem(t).value;
    assert t[item.used..] == t[next..] && CString(item.key) == first.key && item.value == first.value;
  }

  /** A block of one byte more than the name, of which the name is copied. */
  method CopyCommand(name: seq<byte>) returns (command: seq<byte>, ghost junk: byte)
    ensures |command| == |name| + 1 && command[..|name|] == name
    ensures command == name + [junk]
  {
    var block := new byte[|name| + 1];
    forall i | 0 <= i < |name| {
      block[i] := name[i];
    }
    command, junk := block[..], block[|name|];
  }

  /** Store a zero behind the name in the buffer, and run the second pass. */
  method ParseRest(buf: array<byte>, valEnd: nat, next: nat, nPairs: nat, ghost t: seq<byte>)
    returns (pairs: Option<seq<Pair>>)
    requires valEnd < next < buf.Length == |t| && buf[..][next..] == t[next..] && t[|t| - 1] == NUL
    requires Successes(t[next..]) <= nPairs
    modifies buf
    ensures pairs == ParsePairs(t[next..])
  {
    ghost var now := buf[..];
    buf[valEnd] := NUL;
    assert buf[..] == now[valEnd := NUL] && buf[..][next..] == t[next..];
    assert buf[buf.Length - 1] == buf[..][next..][|t| - 1 - next];
    pairs := ParseIntoArray(buf, next, nPairs);
  }

  /** Check the first key, copy the command and parse the pairs. */
  method FinishCommand(buf: array<byte>, first: Pair, valEnd: nat, next: nat, numPairs: nat, ghost t: seq<byte>)
    returns (r: Option<Command>, ghost junk: byte)
    requires valEnd < next < buf.Length == |t| && buf[..][next..] == t[next..] && t[|t| - 1] == NUL
    requires Successes(t[next..]) + 1 <= numPairs
    modifies buf
    ensures r == Assembled(first, junk, numPairs, ParsePairs(t[next..]))
  {
    if first.key != CMD {
      return None, NUL;
    }
    var command, leftover := CopyCommand(first.value);
    junk := leftover;
    var pairs := ParseRest(buf, valEnd, next, numPairs - 1, t);
    if pairs.None? {
      return None, junk;
    }
    r := Some(Command(command, numPairs - 1, pairs.value));
  }

  /** Both passes over a filled command buffer. */
  method DecodeBuffer(buf: array<byte>) returns (r: Option<Command>, ghost junk: byte)
    requires buf.Length >= 2 && buf[buf.Length - 1] == NUL
    modifies buf
    ensures r == DecodeTerminated(old(buf[..]), junk)
  {
    ghost var t := buf[..];
    assert t[0..] == t;
    var numPairs := CountInBuffer(buf);
    var first, next, valEnd := NextPair(buf, 0);
    if first.None? {
      return None, NUL;
    }
    SecondPassFits(t, first.value, next);
    r, junk := FinishCommand(buf, first.value, valEnd, next, numPairs, t);
    DecodedFrom(t, first.value, next, junk);
  }

  /** The body of n bytes at the front of the stream. */
  method ReadBody(fd: Descriptor, n: nat) returns (r: Option<Command>, ghost junk: byte)
    requires n > 0
    modifies fd`incoming
    ensures |old(fd.incoming)| < n ==> r.None? && fd.incoming == []
    ensures |old(fd.incoming)| >= n ==>
              r == Decode(old(fd.incoming)[..n], junk) && fd.incoming == old(fd.incoming)[n..]
  {
    ghost var stream := fd.incoming;
    var buf := new byte[n + 1](_ => NUL);
    var ok := Fill(fd, buf, n);
    if !ok {
      return None, NUL;
    }
    assert buf[..] == stream[..n] + [NUL] by {
      assert buf[..] == buf[..n] + [buf[n]];
    }
    r, junk := DecodeBuffer(buf);
  }

  lemma FrameAndRest(stream: seq<byte>, n: int, junk: byte)
    requires |stream| >= PMII_COMMANDLEN_SIZE && n == Atoi(stream[..PMII_COMMANDLEN_SIZE])
    ensures var rest := stream[PMII_COMMANDLEN_SIZE..];
            && ReadFrame(stream, junk) == (if n <= 0 || |rest| < n then None else Decode(rest[..n], junk))
            && AfterFrame(stream) == if n <= 0 then rest else if |rest| < n then [] else rest[n..]
  {
    var rest := stream[PMII_COMMANDLEN_SIZE..];
    if 0 < n <= |rest| {
      assert rest[..n] == stream[PMII_COMMANDLEN_SIZE..PMII_COMMANDLEN_SIZE + n];
      assert rest[n..] == stream[PMII_COMMANDLEN_SIZE + n..];
    }
  }

  /** Whatever the sizes of the reads, one frame is taken off the stream and
      decoded. */
  method ReadOne(fd: Descriptor) returns (r: Option<Command>, ghost junk: byte)
    modifies fd`incoming
    ensures r == ReadFrame(old(fd.incoming), junk)
    ensures fd.incoming == AfterFrame(old(fd.incoming))
  {
    ghost var stream := fd.incoming;
    var lengthField := new byte[PMII_COMMANDLEN_SIZE + 1](_ => NUL);
    var ok := Fill(fd, lengthField, PMII_COMMANDLEN_SIZE);
    if !ok {
      return None, NUL;
    }
    var n := Atoi(lengthField[..PMII_COMMANDLEN_SIZE]);
    if n <= 0 {
      FrameAndRest(stream, n, NUL);
      return None, NUL;
    }
    r, junk := ReadBody(fd, n);
    FrameAndRest(stream, n, junk);
  }

  /** getval on the pointers of a command, for the key thrid. */
  method FindThrid(c: Command) returns (r: Lookup)
    ensures r == GetVal(c.pairs, c.nPairs, THRID)
  {
    var i := 0;
    assert c.pairs[0..] == c.pairs;
    while i < c.nPairs
      invariant 0 <= i <= |c.pairs| && (i <= c.nPairs || i == 0)
      invariant GetVal(c.pairs, c.nPairs, THRID) == GetVal(c.pairs[i..], c.nPairs - i, THRID)
      decreases c.nPairs - i
    {
      if i == |c.pairs| {
        return NoPair;
      }
      if c.pairs[i].key == THRID {
        return Present(c.pairs[i].value);
      }
      assert c.pairs[i..][1..] == c.pairs[i + 1..];
      i := i + 1;
    }
    r := Absent;
  }

  /** Where the command goes: `target` keeps its value if a thrid does not convert. */
  method ChooseTarget(c: Command, self: Address, last: Option<Address>, scan: Scanner) returns (h: Handover)
    ensures h == HandOver(c, self, last, scan)
  {
    var found := FindThrid(c);
    var target := last;
    match found {
      case NoPair =>
        return UnsetSlot;
      case Absent =>
        target := Some(self);
      case Present(v) =>
        var pointer := Pointer(v, scan);
        if pointer.Some? {
          target := pointer;
        }
    }
    if target.None? {
      return UnsetTarget;
    }
    h := Stored(target.value, c);
  }

  datatype Delivery = Delivery(target: Address, command: Command)

  ghost predicate Takes(stream: seq<byte>, last: Option<Address>, d: Delivery, self: Address, scan: Scanner) {
    exists junk: byte :: TakeFrame(stream, junk, self, last, scan) == Stored(d.target, d.command)
  }

  /** Frames for others at the front of the stream, and what is behind them. */
  ghost predicate Passed(stream: seq<byte>, last: Option<Address>, ds: seq<Delivery>, self: Address, scan: Scanner,
                         end: seq<byte>, endLast: Option<Address>)
    decreases |ds|
  {
    if ds == [] then end == stream && endLast == last
    else
      && ds[0].target != self && Takes(stream, last, ds[0], self, scan)
      && Passed(AfterFrame(stream), Some(ds[0].target), ds[1..], self, scan, end, endLast)
  }

  lemma {:induction false} PassedOne(stream: seq<byte>, last: Option<Address>, ds: seq<Delivery>, self: Address,
                                     scan: Scanner, end: seq<byte>, endLast: Option<Address>, d: Delivery)
    requires Passed(stream, last, ds, self, scan, end, endLast)
    requires d.target != self && Takes(end, endLast, d, self, scan)
    ensures Passed(stream, last, ds + [d], self, scan, AfterFrame(end), Some(d.target))
    decreases |ds|
  {
    if ds == [] {
      assert (ds + [d])[1..] == [];
    } else {
      PassedOne(AfterFrame(stream), Some(ds[0].target), ds[1..], self, scan, end, endLast, d);
      assert (ds + [d])[1..] == ds[1..] + [d];
    }
  }

  lemma FrameIsTaken(stream: seq<byte>, junk: byte)
    requires ReadFrame(stream, junk).Some?
    ensures |AfterFrame(stream)| < |stream|
  {
  }

  /** PMIi_ReadCommand for the caller at `self`: frames for others are handed over and
      passed, until one is for the caller, or the reader fails or follows a pointer
      that nothing assigned. */
  method ReadCommand(fd: Descriptor, self: Address, scan: Scanner)
    returns (h: Handover, ds: seq<Delivery>, ghost junk: byte, ghost end: seq<byte>, ghost last: Option<Address>)
    modifies fd`incoming
    ensures Passed(old(fd.incoming), None, ds, self, scan, end, last)
    ensures h == TakeFrame(end, junk, self, last, scan) && (h.Stored? ==> h.target == self)
    ensures fd.incoming == AfterFrame(end)
  {
    ds, end := [], fd.incoming;
    var target: Option<Address> := None;
    last := None;
    while true
      invariant Passed(old(fd.incoming), None, ds, self, scan, fd.incoming, target)
      decreases |fd.incoming|
    {
      end, last := fd.incoming, target;
      var c, x := ReadOne(fd);
      junk := x;
      if c.None? {
        h := Failed;
        return;
      }
      h := ChooseTarget(c.value, self, target, scan);
      if !h.Stored? || h.target == self {
        return;
      }
      FrameIsTaken(end, junk);
      assert TakeFrame(end, junk, self, target, scan) == Stored(h.target, h.command);
      PassedOne(old(fd.incoming), None, ds, self, scan, end, target, Delivery(h.target, h.command));
      ds, target := ds + [Delivery(h.target, h.command)], Some(h.target);
    }
  }

  /** The strncmp of PMIi_ReadCommandExp over the block of the command. */
  method CheckCommand(command: seq<byte>, exp: seq<byte>) returns (r: Comparison)
    ensures r == Compare(command, exp)
  {
    var i := 0;
    assert command[0..] == command && exp[0..] == exp;
    while i < |exp|
      invariant 0 <= i <= |exp| && i <= |command|
      invariant Compare(command, exp) == Compare(command[i..], exp[i..])
    {
      if i == |command| {
        return OutOfBlock;
      }
      if command[i] != exp[i] {
        return Different;
      }
      assert command[i..][1..] == command[i + 1..] && exp[i..][1..] == exp[i + 1..];
      i := i + 1;
    }
    r := Same;
  }

  // ---- writing ------------------------------------------------------------

  /** Overrun: the next store is behind the end of cmdbuf.  The source does not
      notice, and C does not define what follows, so the model stops there. */
  datatype Status = Success | CmdTooLong | KeyTooLong | ValTooLong | NoRoom | Overrun

  function PairSize(p: Pair): nat {
    |p.key| + 1 + |Escape(p.value)| + 1
  }

  /** What becomes of the pairs with this much room left.  The room for a key is
      checked, but not that for a value, its `;` or the final zero. */
  function PairsStatus(pairs: seq<Pair>, room: int): Status {
    if pairs == [] then if room >= 1 then Success else Overrun
    else if |pairs[0].key| > PMI2_MAX_KEYLEN then KeyTooLong
    else if |pairs[0].key| + 1 >= room then NoRoom
    else if |pairs[0].value| > PMI2_MAX_VALLEN then ValTooLong
    else if PairSize(pairs[0]) > room then Overrun
    else PairsStatus(pairs[1..], room - PairSize(pairs[0]))
  }

  const FIRST_ROOM: nat := PMII_MAX_COMMAND_LEN - PMII_COMMANDLEN_SIZE

  function WriteStatus(cmd: seq<byte>, pairs: seq<Pair>): Status {
    if |cmd| > PMI2_MAX_VALLEN then CmdTooLong
    else PairsStatus(pairs, FIRST_ROOM - |CommandBytes(cmd)|)
  }

  lemma {:induction false} EscapeAppend(v: seq<byte>, x: byte)
    ensures Escape(v + [x]) == Escape(v) + (if x == SEMI then [SEMI, SEMI] else [x])
  {
    if v == [] {
      assert v + [x] == [x] && [x][1..] == [];
    } else {
      EscapeAppend(v[1..], x);
      assert (v + [x])[1..] == v[1..] + [x];
    }
  }

  lemma {:induction false} EscapePrefix(v: seq<byte>, i: nat)
    requires i <= |v|
    ensures Escape(v) == Escape(v[..i]) + Escape(v[i..])
  {
    if i > 0 {
      EscapePrefix(v[1..], i - 1);
      assert v[1..][..i - 1] == v[..i][1..];
      assert v[1..][i - 1..] == v[i..];
    } else {
      assert v[0..] == v;
    }
  }

  lemma {:induction false} PairsAppend(pairs: seq<Pair>, p: Pair)
    ensures PairsBytes(pairs + [p]) == PairsBytes(pairs) + PairBytes(p)
  {
    if pairs == [] {
      assert pairs + [p] == [p] && [p][1..] == [];
    } else {
      PairsAppend(pairs[1..], p);
      assert (pairs + [p])[1..] == pairs[1..] + [p];
    }
  }

  /** Store bytes at position c. */
  method Put(buf: array<byte>, c: nat, bytes: seq<byte>)
    requires c + |bytes| <= buf.Length
    modifies buf
    ensures buf[..][..c + |bytes|] == old(buf[..])[..c] + bytes
    ensures forall i | c + |bytes| <= i < buf.Length :: buf[i] == old(buf[i])
  {
    var i := 0;
    while i < |bytes|
      invariant 0 <= i <= |bytes|
      invariant buf[..][..c + i] == old(buf[..])[..c] + bytes[..i]
      invariant forall j | c + i <= j < buf.Length :: buf[j] == old(buf[j])
    {
      buf[c + i] := bytes[i];
      i := i + 1;
    }
  }

  lemma EscapeReaches(v: seq<byte>, i: nat)
    requires i < |v|
    ensures |Escape(v)| >= |Escape(v[..i])| + if v[i] == SEMI then 2 else 1
  {
    EscapePrefix(v, i + 1);
    EscapeAppend(v[..i], v[i]);
    assert v[..i] + [v[i]] == v[..i + 1];
  }

  /** The escaping loop, up to the first store outside the buffer. */
  method PutEscaped(buf: array<byte>, start: nat, value: seq<byte>) returns (fits: bool, c: nat)
    requires start <= buf.Length
    modifies buf
    ensures fits <==> start + |Escape(value)| <= buf.Length
    ensures fits ==> c == start + |Escape(value)| && buf[..][..c] == old(buf[..])[..start] + Escape(value)
  {
    c := start;
    ghost var was := buf[..];
    var i := 0;
    while i < |value|
      invariant 0 <= i <= |value|
      invariant c == start + |Escape(value[..i])| <= buf.Length
      invariant buf[..][..c] == was[..start] + Escape(value[..i])
    {
      ghost var before := buf[..][..c];
      EscapeReaches(value, i);
      EscapeAppend(value[..i], value[i]);
      assert value[..i] + [value[i]] == value[..i + 1];
      if value[i] == SEMI {
        if c == buf.Length {
          return false, c;
        }
        buf[c] := SEMI;
        c := c + 1;
      }
      if c == buf.Length {
        return false, c;
      }
      buf[c] := value[i];
      c := c + 1;
      assert buf[..][..c] == before + (if value[i] == SEMI then [SEMI, SEMI] else [value[i]]);
      i := i + 1;
    }
    assert value[..i] == value;
    fits := true;
  }

  /** The state of the writer before pair k: the buffer holds blanks and the
      bytes so far, and the remaining pairs end as all of them do. */
  ghost predicate Writing(s: seq<byte>, cmd: seq<byte>, pairs: seq<Pair>, k: nat, c: nat, room: int) {
    && k <= |pairs| && c <= |s| == PMII_MAX_COMMAND_LEN && c + room == PMII_MAX_COMMAND_LEN
    && s[..c] == Spaces(PMII_COMMANDLEN_SIZE) + CommandBytes(cmd) + PairsBytes(pairs[..k])
    && WriteStatus(cmd, pairs) == PairsStatus(pairs[k..], room)
  }

  lemma WritingRound(s: seq<byte>, s': seq<byte>, cmd: seq<byte>, pairs: seq<Pair>, k: nat, c: nat, room: int)
    requires Writing(s, cmd, pairs, k, c, room) && k < |pairs|
    requires |pairs[k].key| <= PMI2_MAX_KEYLEN && |pairs[k].key| + 1 < room && |pairs[k].value| <= PMI2_MAX_VALLEN
    requires |s'| == |s| && c + PairSize(pairs[k]) <= |s|
    requires s'[..c + PairSize(pairs[k])] == s[..c] + PairBytes(pairs[k])
    ensures Writing(s', cmd, pairs, k + 1, c + PairSize(pairs[k]), room - PairSize(pairs[k]))
  {
    PairsAppend(pairs[..k], pairs[k]);
    assert pairs[..k] + [pairs[k]] == pairs[..k + 1];
    assert pairs[k..][1..] == pairs[k + 1..];
  }

  /** snprintf of a string that fits with its zero. */
  method Print(buf: array<byte>, start: nat, bytes: seq<byte>) returns (c: nat)
    requires start + |bytes| < buf.Length
    modifies buf
    ensures c == start + |bytes| && buf[..][..c] == old(buf[..])[..start] + bytes
  {
    ghost var was := buf[..][..start];
    Put(buf, start, bytes + [NUL]);
    c := start + |bytes|;
    assert buf[..][..c] == buf[..][..c + 1][..c] == (was + (bytes + [NUL]))[..c];
  }

  /** Key, `=`, escaped value and `;` of one pair, up to the first store outside
      the buffer. */
  method PutPair(buf: array<byte>, start: nat, p: Pair) returns (fits: bool, c: nat)
    requires start + |p.key| + 1 < buf.Length
    modifies buf
    ensures fits <==> start + PairSize(p) <= buf.Length
    ensures fits ==> c == start + PairSize(p) && buf[..][..c] == old(buf[..])[..start] + PairBytes(p)
  {
    ghost var was := buf[..][..start];
    c := Print(buf, start, p.key + [EQUALS]);
    fits, c := PutEscaped(buf, c, p.value);
    if !fits || c == buf.Length {
      return false, c;
    }
    ghost var now := buf[..][..c];
    buf[c] := SEMI;
    c := c + 1;
    assert buf[..][..c] == now + [SEMI];
    assert was + (p.key + [EQUALS]) + Escape(p.value) + [SEMI] == was + PairBytes(p);
  }

  /** PMIi_WriteSimpleCommand: on success exactly one frame is sent, whatever the
      sizes of the writes; on an error nothing is sent. */
  method WriteSimpleCommand(fd: Descriptor, cmd: seq<byte>, pairs: seq<Pair>) returns (status: Status)
    modifies fd`outgoing
    ensures status == WriteStatus(cmd, pairs)
    ensures status.Success? ==>
              && PMII_COMMANDLEN_SIZE + |Body(cmd, pairs)| < PMII_MAX_COMMAND_LEN
              && fd.outgoing == old(fd.outgoing) + Frame(cmd, pairs)
    ensures !status.Success? ==> fd.outgoing == old(fd.outgoing)
  {
    var cmdbuf := new byte[PMII_MAX_COMMAND_LEN];
    var c: nat := PMII_COMMANDLEN_SIZE;
    Put(cmdbuf, 0, Spaces(c));
    if |cmd| > PMI2_MAX_VALLEN {
      return CmdTooLong;
    }
    c := Print(cmdbuf, c, CommandBytes(cmd));
    var remaining := PMII_MAX_COMMAND_LEN - c;
    var k := 0;
    assert pairs[0..] == pairs && PairsBytes(pairs[..0]) == [];
    while k < |pairs|
      invariant k <= |pairs|
      invariant Writing(cmdbuf[..], cmd, pairs, k, c, remaining)
      invariant fd.outgoing == old(fd.outgoing)
    {
      var p := pairs[k];
      assert pairs[k..][0] == p;
      if |p.key| > PMI2_MAX_KEYLEN {
        return KeyTooLong;
      }
      if |p.key| + 1 >= remaining {
        return NoRoom;
      }
      if |p.value| > PMI2_MAX_VALLEN {
        return ValTooLong;
      }
      ghost var s := cmdbuf[..];
      var fits, c' := PutPair(cmdbuf, c, p);
      if !fits {
        return Overrun;
      }
      WritingRound(s, cmdbuf[..], cmd, pairs, k, c, remaining);
      remaining, c, k := remaining - (c' - c), c', k + 1;
    }
    if c == cmdbuf.Length {
      return Overrun;
    }
    status := Success;
    SendFrame(fd, cmdbuf, c, cmd, pairs);
  }

  /** Copy the digits over the blanks at the front. */
  method PutLength(cmdbuf: array<byte>, digits: seq<byte>)
    requires |digits| <= cmdbuf.Length
    modifies cmdbuf
    ensures cmdbuf[..] == digits + old(cmdbuf[..])[|digits|..]
  {
    var i := 0;
    while i < |digits|
      invariant 0 <= i <= |digits|
      invariant forall j | 0 <= j < i :: cmdbuf[j] == digits[j]
      invariant forall j | i <= j < cmdbuf.Length :: cmdbuf[j] == old(cmdbuf[j])
    {
      cmdbuf[i] := digits[i];
      i := i + 1;
    }
    assert cmdbuf[..] == digits + old(cmdbuf[..])[|digits|..];
  }

  /** Write the first c bytes out in as many pieces as it takes. */
  method WriteOut(fd: Descriptor, cmdbuf: array<byte>, c: nat)
    requires 0 < c <= cmdbuf.Length
    modifies fd`outgoing
    ensures fd.outgoing == old(fd.outgoing) + cmdbuf[..c]
  {
    var offset := 0;
    while offset < c
      invariant 0 <= offset <= c
      invariant fd.outgoing == old(fd.outgoing) + cmdbuf[..offset]
    {
      var n := fd.Write(cmdbuf[offset..c]);
      assert cmdbuf[..offset] + cmdbuf[offset..c][..n] == cmdbuf[..offset + n];
      offset := offset + n;
    }
  }

  /** Prepend the length and send the frame. */
  method SendFrame(fd: Descriptor, cmdbuf: array<byte>, c: nat, ghost cmd: seq<byte>, ghost pairs: seq<Pair>)
    requires c < cmdbuf.Length == PMII_MAX_COMMAND_LEN
    requires Writing(cmdbuf[..], cmd, pairs, |pairs|, c, PMII_MAX_COMMAND_LEN - c)
    modifies fd`outgoing, cmdbuf
    ensures PMII_COMMANDLEN_SIZE + |Body(cmd, pairs)| < PMII_MAX_COMMAND_LEN
    ensures fd.outgoing == old(fd.outgoing) + Frame(cmd, pairs)
  {
    ghost var was := cmdbuf[..];
    assert pairs[..|pairs|] == pairs;
    assert was[..c] == Spaces(PMII_COMMANDLEN_SIZE) + Body(cmd, pairs);
    var cmdlen := c - PMII_COMMANDLEN_SIZE;
    var digits := Decimal(cmdlen);
    DecimalLength(cmdlen, 4);
    PutLength(cmdbuf, digits);
    FrontOf(digits, was, c);
    ghost var filled := cmdbuf[..];
    cmdbuf[c] := NUL;
    assert cmdbuf[..c] == filled[..c];
    FrameInBuffer(was, cmdbuf[..c], cmd, pairs, c, digits);
    WriteOut(fd, cmdbuf, c);
  }

  lemma FrontOf(digits: seq<byte>, was: seq<byte>, c: nat)
    requires |digits| <= c <= |was|
    ensures (digits + was[|digits|..])[..c] == digits + was[|digits|..c]
  {
  }

  lemma FrameInBuffer(was: seq<byte>, now: seq<byte>, cmd: seq<byte>, pairs: seq<Pair>, c: nat, digits: seq<byte>)
    requires PMII_COMMANDLEN_SIZE <= c < |was| == PMII_MAX_COMMAND_LEN
    requires was[..c] == Spaces(PMII_COMMANDLEN_SIZE) + Body(cmd, pairs)
    requires digits == Decimal(c - PMII_COMMANDLEN_SIZE) && |digits| <= 5
    requires now == digits + was[|digits|..c]
    ensures now == Frame(cmd, pairs)
  {
    assert was[|digits|..c] == was[..c][|digits|..];
    assert Spaces(PMII_COMMANDLEN_SIZE)[|digits|..] == Spaces(PMII_COMMANDLEN_SIZE - |digits|);
  }

  // ---- when the writer leaves its buffer ----------------------------------

  predicate AllWithinLimits(pairs: seq<Pair>) {
    forall i | 0 <= i < |pairs| :: WithinLimits(pairs[i])
  }

  /** Pair k starts at a position where its key fits and its value does not. */
  predicate ValueLeaves(pairs: seq<Pair>, c: nat, k: nat)
    requires k < |pairs|
  {
    var start := c + |PairsBytes(pairs[..k])|;
    && AllWithinLimits(pairs[..k + 1])
    && start + |pairs[k].key| + 1 < PMII_MAX_COMMAND_LEN < start + PairSize(pairs[k])
  }

  /** A value leaves the buffer, or all pairs fill it and leave no room for the
      final zero. */
  predicate Leaves(pairs: seq<Pair>, c: nat) {
    || (AllWithinLimits(pairs) && c + |PairsBytes(pairs)| == PMII_MAX_COMMAND_LEN)
    || exists k | 0 <= k < |pairs| :: ValueLeaves(pairs, c, k)
  }

  lemma FirstPairBytes(pairs: seq<Pair>, k: nat)
    requires 0 < k <= |pairs|
    ensures |PairsBytes(pairs[..k])| == PairSize(pairs[0]) + |PairsBytes(pairs[1..][..k - 1])|
  {
    assert pairs[..k][1..] == pairs[1..][..k - 1];
  }

  lemma LimitsOfRest(pairs: seq<Pair>, k: nat)
    requires 0 < k <= |pairs| && WithinLimits(pairs[0])
    ensures AllWithinLimits(pairs[..k]) <==> AllWithinLimits(pairs[1..][..k - 1])
  {
    assert pairs[..k] == [pairs[0]] + pairs[1..][..k - 1];
  }

  lemma LeavesInRest(pairs: seq<Pair>, c: nat, k: nat)
    requires 0 < k < |pairs| && WithinLimits(pairs[0])
    ensures ValueLeaves(pairs, c, k) <==> ValueLeaves(pairs[1..], c + PairSize(pairs[0]), k - 1)
  {
    FirstPairBytes(pairs, k);
    LimitsOfRest(pairs, k + 1);
  }

  /** Nothing leaves any more once a key does not fit. */
  lemma NoLeavingBehind(pairs: seq<Pair>, c: nat)
    requires pairs != [] && c + |pairs[0].key| + 1 >= PMII_MAX_COMMAND_LEN
    ensures !Leaves(pairs, c)
  {
    FirstPairBytes(pairs, |pairs|);
    assert pairs[..|pairs|] == pairs;
    forall k | 0 <= k < |pairs|
      ensures !ValueLeaves(pairs, c, k)
    {
      if k > 0 { FirstPairBytes(pairs, k); }
    }
  }

  lemma LeavesWithFirst(pairs: seq<Pair>, c: nat)
    requires pairs != [] && WithinLimits(pairs[0]) && c + PairSize(pairs[0]) <= PMII_MAX_COMMAND_LEN
    ensures Leaves(pairs, c) <==> Leaves(pairs[1..], c + PairSize(pairs[0]))
  {
    var rest, d := pairs[1..], c + PairSize(pairs[0]);
    LimitsOfRest(pairs, |pairs|);
    assert pairs[..|pairs|] == pairs && rest[..|rest|] == rest;
    forall k | 0 < k < |pairs|
      ensures ValueLeaves(pairs, c, k) <==> ValueLeaves(rest, d, k - 1)
    {
      LeavesInRest(pairs, c, k);
    }
    if k :| 0 <= k < |rest| && ValueLeaves(rest, d, k) {
      assert ValueLeaves(pairs, c, k + 1);
    }
  }

  lemma {:induction false} PairsOverrunIff(pairs: seq<Pair>, c: nat)
    requires c <= PMII_MAX_COMMAND_LEN
    ensures PairsStatus(pairs, PMII_MAX_COMMAND_LEN - c).Overrun? <==> Leaves(pairs, c)
    decreases |pairs|
  {
    if pairs != [] {
      var p := pairs[0];
      if !WithinLimits(p) {
        forall k | 0 <= k < |pairs|
          ensures !ValueLeaves(pairs, c, k)
        {
          assert pairs[..k + 1][0] == p;
        }
      } else if c + |p.key| + 1 >= PMII_MAX_COMMAND_LEN {
        NoLeavingBehind(pairs, c);
      } else if c + PairSize(p) > PMII_MAX_COMMAND_LEN {
        assert pairs[..1] == [p] && pairs[..0] == [];
        assert ValueLeaves(pairs, c, 0);
      } else {
        LeavesWithFirst(pairs, c);
        PairsOverrunIff(pairs[1..], c + PairSize(p));
      }
    }
  }

  /** For every input: a store leaves cmdbuf if and only if, up to some pair,
      everything is within the limits, that pair's key still fits and its value
      does not, or everything together just fills the buffer. */
  lemma OverrunIff(cmd: seq<byte>, pairs: seq<Pair>)
    ensures WriteStatus(cmd, pairs).Overrun?
       <==> |cmd| <= PMI2_MAX_VALLEN && Leaves(pairs, PMII_COMMANDLEN_SIZE + |CommandBytes(cmd)|)
  {
    if |cmd| <= PMI2_MAX_VALLEN {
      PairsOverrunIff(pairs, PMII_COMMANDLEN_SIZE + |CommandBytes(cmd)|);
    }
  }

  /** The first limit that the source's own checks find. */
  function ChecksStatus(pairs: seq<Pair>, room: int): Status {
    if pairs == [] then Success
    else if |pairs[0].key| > PMI2_MAX_KEYLEN then KeyTooLong
    else if |pairs[0].key| + 1 >= room then NoRoom
    else if |pairs[0].value| > PMI2_MAX_VALLEN then ValTooLong
    else ChecksStatus(pairs[1..], room - PairSize(pairs[0]))
  }

  /** If all checks pass, the stores stay inside exactly if the frame and its zero
      fit; otherwise the checks find an error unless a store went outside before. */
  lemma {:induction false} CheckedPairs(pairs: seq<Pair>, room: int)
    ensures ChecksStatus(pairs, room).Success? ==>
              PairsStatus(pairs, room) == if |PairsBytes(pairs)| < room then Success else Overrun
    ensures !PairsStatus(pairs, room).Overrun? ==> PairsStatus(pairs, room) == ChecksStatus(pairs, room)
    decreases |pairs|
  {
    if pairs != [] { CheckedPairs(pairs[1..], room - PairSize(pairs[0])); }
  }

  /** When the checks of the source pass, no store leaves cmdbuf if and only if the
      whole frame with its final zero fits. */
  lemma ChecksSufficeIff(cmd: seq<byte>, pairs: seq<Pair>)
    requires |cmd| <= PMI2_MAX_VALLEN && ChecksStatus(pairs, FIRST_ROOM - |CommandBytes(cmd)|).Success?
    ensures WriteStatus(cmd, pairs) ==
            if PMII_COMMANDLEN_SIZE + |Body(cmd, pairs)| < PMII_MAX_COMMAND_LEN then Success else Overrun
  {
    CheckedPairs(pairs, FIRST_ROOM - |CommandBytes(cmd)|);
  }

  function Repeat(p: Pair, n: nat): (r: seq<Pair>)
    ensures |r| == n && forall i | 0 <= i < n :: r[i] == p
  {
    seq(n, _ => p)
  }

  lemma {:induction false} RepeatedPairs(p: Pair, n: nat, room: int)
    requires WithinLimits(p) && |p.key| + 1 < room - (n - 1) * PairSize(p)
    ensures |PairsBytes(Repeat(p, n))| == n * PairSize(p)
    ensures ChecksStatus(Repeat(p, n), room).Success?
    decreases n
  {
    if n > 0 {
      NextMultiple(n - 1, PairSize(p));
      NextMultiple(n - 2, PairSize(p));
      RepeatedPairs(p, n - 1, room - PairSize(p));
      assert Repeat(p, n)[1..] == Repeat(p, n - 1);
    }
  }

  lemma NextMultiple(n: int, size: nat)
    ensures (n + 1) * size == n * size + size
  {
  }

  /** The command "x" with 64 pairs of a one-byte key and 1024 plain bytes passes
      every check of the source and leaves the buffer. */
  lemma LongMessageOverruns(x: byte)
    requires SendableName([x])
    ensures var pairs := Repeat(Pair([LETTER_K], seq(PMI2_MAX_VALLEN, _ => LETTER_V)), 64);
            && AllSendable(pairs)
            && ChecksStatus(pairs, FIRST_ROOM - |CommandBytes([x])|).Success?
            && WriteStatus([x], pairs).Overrun?
  {
    var value := seq(PMI2_MAX_VALLEN, _ => LETTER_V);
    var p := Pair([LETTER_K], value);
    EscapeNothing(value);
    NoLoneSemis(p.key);
    assert PairSize(p) == 1027;
    RepeatedPairs(p, 64, FIRST_ROOM - |CommandBytes([x])|);
    ChecksSufficeIff([x], Repeat(p, 64));
  }

  // ---- a conversation -----------------------------------------------------

  /** Pairs whose bytes fit are accepted by all the checks of the writer. */
  lemma {:induction false} FittingPairsAreAccepted(pairs: seq<Pair>, room: int)
    requires AllSendable(pairs) && |PairsBytes(pairs)| < room
    ensures PairsStatus(pairs, room).Success?
    decreases |pairs|
  {
    if pairs != [] {
      assert Sendable(pairs[0]);
      FittingPairsAreAccepted(pairs[1..], room - PairSize(pairs[0]));
    }
  }

  lemma SendableIsAccepted(m: Message)
    requires SendableMessage(m)
    ensures WriteStatus(m.cmd, m.pairs).Success?
  {
    FittingPairsAreAccepted(m.pairs, FIRST_ROOM - |CommandBytes(m.cmd)|);
  }

  /** Writing several commands puts their frames on the descriptor. */
  method WriteAll(fd: Descriptor, ms: seq<Message>)
    requires forall i | 0 <= i < |ms| :: SendableMessage(ms[i])
    modifies fd`outgoing
    ensures fd.outgoing == old(fd.outgoing) + Frames(ms)
    decreases |ms|
  {
    if ms != [] {
      assert SendableMessage(ms[0]);
      SendableIsAccepted(ms[0]);
      ghost var was, frame, more := fd.outgoing, Frame(ms[0].cmd, ms[0].pairs), Frames(ms[1..]);
      var status := WriteSimpleCommand(fd, ms[0].cmd, ms[0].pairs);
      WriteAll(fd, ms[1..]);
      assert (was + frame) + more == was + (frame + more);
    }
  }

  /** A message for anyone is not passed. */
  lemma NothingPassed(m: Message, rest: seq<byte>, ds: seq<Delivery>, self: Address, scan: Scanner,
                      end: seq<byte>, last: Option<Address>)
    requires SendableMessage(m) && Passed(Frame(m.cmd, m.pairs) + rest, None, ds, self, scan, end, last)
    ensures ds == [] && end == Frame(m.cmd, m.pairs) + rest && last == None
  {
    if ds != [] {
      var junk: byte :| TakeFrame(Frame(m.cmd, m.pairs) + rest, junk, self, None, scan)
                        == Stored(ds[0].target, ds[0].command);
      FrameRoundTrip(m, rest, junk, self, None, scan);
    }
  }

  /** Reading takes the frames of the messages off the stream, one call for each. */
  method ReadAll(fd: Descriptor, ghost ms: seq<Message>, n: nat, self: Address, scan: Scanner, ghost rest: seq<byte>)
    returns (received: seq<Command>)
    requires (forall i | 0 <= i < |ms| :: SendableMessage(ms[i])) && n == |ms|
    requires fd.incoming == Frames(ms) + rest
    modifies fd`incoming
    ensures fd.incoming == rest
    ensures |received| == |ms| && forall i | 0 <= i < |ms| :: Carries(received[i], ms[i])
    decreases n
  {
    received := [];
    if n == 0 {
      assert Frames(ms) + rest == rest;
      return;
    }
    ghost var behind := Frames(ms[1..]) + rest;
    assert SendableMessage(ms[0]) && fd.incoming == Frame(ms[0].cmd, ms[0].pairs) + behind;
    var h, ds, junk, end, last := ReadCommand(fd, self, scan);
    NothingPassed(ms[0], behind, ds, self, scan, end, last);
    FrameRoundTrip(ms[0], behind, junk, self, None, scan);
    var more := ReadAll(fd, ms[1..], n - 1, self, scan, rest);
    received := [h.command] + more;
  }

  /** The command holds the name and the pairs of the message, and one byte more. */
  predicate Carries(c: Command, m: Message) {
    && |c.command| == |m.cmd| + 1 && c.command[..|m.cmd|] == m.cmd
    && c.nPairs == |m.pairs| && c.pairs == m.pairs
  }

  /** Stream framing: commands written one after the other and then read back,
      in reads and writes of any size, are exactly the commands that were sent. */
  method Converse(ms: seq<Message>, self: Address, scan: Scanner) returns (received: seq<Command>)
    requires forall i | 0 <= i < |ms| :: SendableMessage(ms[i])
    ensures |received| == |ms| && forall i | 0 <= i < |ms| :: Carries(received[i], ms[i])
  {
    var writer := new Descriptor([]);
    WriteAll(writer, ms);
    var reader := new Descriptor(writer.outgoing);
    assert writer.outgoing == Frames(ms) && Frames(ms) + [] == Frames(ms);
    received := ReadAll(reader, ms, |ms|, self, scan, []);
  }
}
