/** PMI2U_readline of pmi2_util.c: lines out of a buffered descriptor. */
module LineReader {
  import opened Pmi2Wire

  const NEWLINE: byte := 10
  const MAX_READLINE: nat := 1024

  // ---- lines of a byte stream ---------------------------------------------

  /** Length of the line at the front of s: up to and including the first
      newline, but at most room bytes. */
  function LineLength(s: seq<byte>, room: nat): (n: nat)
    ensures n <= |s| && n <= room
  {
    if s == [] || room == 0 then 0
    else if s[0] == NEWLINE then 1
    else 1 + LineLength(s[1..], room - 1)
  }

  /** Room for characters in a buffer of maxlen, which keeps one for the zero. */
  function Room(maxlen: int): nat {
    if maxlen <= 1 then 0 else maxlen - 1
  }

  function Line(s: seq<byte>, maxlen: int): seq<byte> {
    s[..LineLength(s, Room(maxlen))]
  }

  /** No newline in front of the last of n bytes. */
  predicate Unbroken(s: seq<byte>, n: nat)
    requires n <= |s|
  {
    forall i | 0 <= i < n - 1 :: s[i] != 10
  }

  /** The line of a call: the front of the stream, of at most maxlen - 1 bytes, that
      holds a newline at most at its end; it is the longest such. */
  lemma LineIsFront(s: seq<byte>, maxlen: int)
    ensures Line(s, maxlen) <= s && (|Line(s, maxlen)| == 0 || |Line(s, maxlen)| <= maxlen - 1)
    ensures Unbroken(s, |Line(s, maxlen)|)
    ensures forall n | 0 < n <= |s| && n <= maxlen - 1 && Unbroken(s, n) :: n <= |Line(s, maxlen)|
  {
    LineShape(s, Room(maxlen));
  }

  /** A line holds a newline at most at its end, and it ends there, or because
      the room or the stream is exhausted. */
  lemma {:induction false} LineShape(s: seq<byte>, room: nat)
    ensures var n := LineLength(s, room);
            && (forall i | 0 <= i < n - 1 :: s[i] != NEWLINE)
            && (n == room || n == |s| || (n > 0 && s[n - 1] == NEWLINE))
  {
    if s != [] && room > 0 && s[0] != NEWLINE {
      LineShape(s[1..], room - 1);
      var n := LineLength(s, room);
      forall i | 0 <= i < n - 1
        ensures s[i] != NEWLINE
      {
        if i > 0 { assert s[i] == s[1..][i - 1]; }
      }
    }
  }

  /** The line is determined by its shape. */
  lemma {:induction false} LineLengthIs(s: seq<byte>, room: nat, n: nat)
    requires n <= |s| && n <= room && forall i | 0 <= i < n - 1 :: s[i] != NEWLINE
    requires n == room || n == |s| || (n > 0 && s[n - 1] == NEWLINE)
    ensures LineLength(s, room) == n
  {
    if n > 0 && s[0] != NEWLINE {
      forall i | 0 <= i < n - 2
        ensures s[1..][i] != NEWLINE
      {
        assert s[1..][i] == s[i + 1];
      }
      LineLengthIs(s[1..], room - 1, n - 1);
    }
  }

  /** The lines that a run of reads with these buffer sizes returns. */
  function Lines(s: seq<byte>, maxlens: seq<int>): seq<seq<byte>> {
    if maxlens == [] then []
    else [Line(s, maxlens[0])] + Lines(s[|Line(s, maxlens[0])|..], maxlens[1..])
  }

  function Concat(parts: seq<seq<byte>>): seq<byte> {
    if parts == [] then [] else parts[0] + Concat(parts[1..])
  }

  /** What one call leaves behind: the line is at the front of the stream, holds a
      newline at most at its end, and ends there, at the limit, at the end of the
      stream or at a read error. */
  ghost predicate LineOf(stream: seq<byte>, line: seq<byte>, maxlen: int, failed: bool) {
    && line <= stream && |line| <= Room(maxlen)
    && (forall i | 0 <= i < |line| - 1 :: line[i] != NEWLINE)
    && (failed || |line| == Room(maxlen) || line == stream || (line != [] && line[|line| - 1] == NEWLINE))
  }

  /** A run of calls: each takes its line off what the previous one left. */
  ghost predicate RunOf(stream: seq<byte>, maxlens: seq<int>, lines: seq<seq<byte>>, failed: seq<bool>) {
    && |lines| == |maxlens| == |failed|
    && (lines != [] ==>
          && LineOf(stream, lines[0], maxlens[0], failed[0])
          && RunOf(stream[|lines[0]|..], maxlens[1..], lines[1..], failed[1..]))
  }

  /** Without read errors the lines do not depend on how the bytes came in. */
  lemma {:induction false} RunWithoutErrors(stream: seq<byte>, maxlens: seq<int>, lines: seq<seq<byte>>,
                                            failed: seq<bool>)
    requires RunOf(stream, maxlens, lines, failed) && true !in failed
    ensures lines == Lines(stream, maxlens)
    decreases |lines|
  {
    if lines != [] {
      var line := lines[0];
      LineIs(stream, line, stream[|line|..], Room(maxlens[0]));
      RunWithoutErrors(stream[|line|..], maxlens[1..], lines[1..], failed[1..]);
      assert lines == [line] + lines[1..];
    }
  }

  /** Nothing is lost, repeated or reordered over a whole run, errors included. */
  lemma {:induction false} LinesArePrefix(stream: seq<byte>, maxlens: seq<int>, lines: seq<seq<byte>>,
                                          failed: seq<bool>)
    requires RunOf(stream, maxlens, lines, failed)
    ensures Concat(lines) <= stream
    decreases |lines|
  {
    if lines != [] {
      var rest := stream[|lines[0]|..];
      LinesArePrefix(rest, maxlens[1..], lines[1..], failed[1..]);
      assert stream == lines[0] + rest;
    }
  }

  // ---- the buffered reader ------------------------------------------------

  datatype ReadResult = Got(bytes: seq<byte>) | EndOfFile | ReadError

  /** The descriptor: a read gives any positive number of the pending bytes, end
      of file once there are none, or an error at any time. */
  class Feed {
    var pending: seq<byte>

    constructor (bytes: seq<byte>)
      ensures pending == bytes
    {
      pending := bytes;
    }

    method Read(max: nat) returns (r: ReadResult)
      requires max > 0
      modifies this
      ensures r.Got? ==> 0 < |r.bytes| <= max && old(pending) == r.bytes + pending
      ensures !r.Got? ==> pending == old(pending)
      ensures r.EndOfFile? ==> pending == []
    {
      if * {
        return ReadError;
      }
      if pending == [] {
        return EndOfFile;
      }
      var n :| 1 <= n <= max && n <= |pending|;
      r := Got(pending[..n]);
      pending := pending[n..];
    }
  }

  class Reader {
    const readbuf: array<byte>
    const feed: Feed
    var nextChar: nat
    var lastChar: nat

    ghost predicate Valid()
      reads this, readbuf
    {
      readbuf.Length == MAX_READLINE && nextChar <= lastChar < MAX_READLINE
    }

    /** What has not been returned yet: the rest of the buffer, then the rest of
        the descriptor. */
    ghost function Unread(): seq<byte>
      requires Valid()
      reads this, readbuf, feed
    {
      readbuf[nextChar..lastChar] + feed.pending
    }

    constructor (f: Feed)
      ensures Valid() && fresh(readbuf) && feed == f && Unread() == f.pending
    {
      readbuf := new byte[MAX_READLINE];
      feed := f;
      nextChar, lastChar := 0, 0;
    }

    /** Refill the empty buffer. */
    method Refill() returns (r: ReadResult)
      requires Valid() && nextChar == lastChar
      modifies this`nextChar, this`lastChar, readbuf, feed
      ensures Valid() && Unread() == old(Unread())
      ensures r.Got? ==> nextChar < lastChar
      ensures r.EndOfFile? ==> Unread() == []
    {
      r := feed.Read(MAX_READLINE - 1);
      if r.Got? {
        var bytes := r.bytes;
        forall i | 0 <= i < |bytes| {
          readbuf[i] := bytes[i];
        }
        nextChar, lastChar := 0, |bytes|;
        readbuf[|bytes|] := NUL;
        assert readbuf[0..lastChar] == bytes;
      }
    }

    /** The next byte, reading from the descriptor when the buffer is empty. */
    method NextByte() returns (r: ReadResult)
      requires Valid()
      modifies this`nextChar, this`lastChar, readbuf, feed
      ensures Valid()
      ensures r.Got? ==> |r.bytes| == 1 && old(Unread()) == r.bytes + Unread()
      ensures !r.Got? ==> Unread() == old(Unread())
      ensures r.EndOfFile? ==> Unread() == []
    {
      if nextChar == lastChar {
        r := Refill();
        if !r.Got? {
          return;
        }
      }
      ghost var rest := Unread();
      r := Got([readbuf[nextChar]]);
      nextChar := nextChar + 1;
      assert rest == r.bytes + Unread();
    }

    /** The line so far: p bytes of buf, in front of what is still unread. */
    ghost predicate Reading(stream: seq<byte>, line: seq<byte>, room: nat)
      reads this, readbuf, feed
    {
      && Valid() && stream == line + Unread() && |line| <= room
      && (forall i | 0 <= i < |line| - 1 :: line[i] != NEWLINE)
    }

    method ReadOne(buf: array<byte>, p: nat, ghost stream: seq<byte>, ghost room: nat) returns (r: ReadResult)
      requires p < room < buf.Length && buf != readbuf && Reading(stream, buf[..p], room)
      requires p > 0 ==> buf[p - 1] != NEWLINE
      modifies this`nextChar, this`lastChar, readbuf, feed, buf
      ensures if r.Got? then Reading(stream, buf[..p + 1], room) else Reading(stream, buf[..p], room)
      ensures r.EndOfFile? ==> Unread() == []
    {
      ghost var line := buf[..p];
      r := NextByte();
      if r.Got? {
        buf[p] := r.bytes[0];
        assert buf[..p + 1] == line + r.bytes;
        assert line + (r.bytes + Unread()) == (line + r.bytes) + Unread();
      } else {
        assert buf[..p] == line;
      }
    }

    /** The loop: it stops after a newline, when the room is used up, or when the
        descriptor gives nothing more. */
    method ReadInto(buf: array<byte>, room: nat) returns (p: nat, failed: bool)
      requires Valid() && room < buf.Length && buf != readbuf
      modifies this`nextChar, this`lastChar, readbuf, feed, buf
      ensures p <= room && Reading(old(Unread()), buf[..p], room)
      ensures !failed ==> p == room || Unread() == [] || (p > 0 && buf[p - 1] == NEWLINE)
    {
      ghost var stream := Unread();
      p, failed := 0, false;
      assert stream == buf[..0] + Unread();
      while p < room
        invariant 0 <= p <= room && !failed && Reading(stream, buf[..p], room)
        invariant p > 0 ==> buf[p - 1] != NEWLINE
      {
        var r := ReadOne(buf, p, stream, room);
        if !r.Got? {
          failed := r.ReadError?;
          return;
        }
        p := p + 1;
        if buf[p - 1] == NEWLINE {
          return;
        }
      }
    }

    /** The count that is returned is -1 for a read error before any byte;
        otherwise it is the number of bytes stored in front of the final zero. */
    method Readline(buf: array<byte>, maxlen: int) returns (count: int, failed: bool)
      requires Valid() && maxlen <= buf.Length && 1 <= buf.Length && buf != readbuf
      modifies this`nextChar, this`lastChar, readbuf, feed, buf
      ensures Valid()
      ensures count == -1 ==> failed && Unread() == old(Unread()) && buf[0] == 0
      ensures count != -1 ==> 0 <= count < buf.Length && buf[count] == 0 && (count == 0 || count <= maxlen - 1)
      ensures failed ==> count != 0
      ensures count != -1 ==> old(Unread()) == buf[..count] + Unread()
      ensures count != -1 ==> Reading(old(Unread()), buf[..count], Room(maxlen))
      ensures !failed ==> 0 <= count < buf.Length && buf[..count] == Line(old(Unread()), maxlen)
    {
      ghost var stream := Unread();
      var p, err := ReadInto(buf, Room(maxlen));
      failed := err;
      ghost var line := buf[..p];
      if !failed {
        LineIs(stream, line, Unread(), Room(maxlen));
      }
      buf[p] := NUL;
      assert buf[..p] == line;
      count := if failed && p == 0 then -1 else p;
    }
  }

  lemma LineOfStream(stream: seq<byte>, maxlen: int)
    ensures LineOf(stream, Line(stream, maxlen), maxlen, false)
  {
    LineShape(stream, Room(maxlen));
  }

  lemma RunCons(stream: seq<byte>, line: seq<byte>, rest: seq<byte>, maxlens: seq<int>, err: bool,
                more: seq<seq<byte>>, errs: seq<bool>, end: seq<byte>)
    requires maxlens != [] && stream == line + rest && LineOf(stream, line, maxlens[0], err)
    requires RunOf(rest, maxlens[1..], more, errs) && rest == Concat(more) + end
    ensures RunOf(stream, maxlens, [line] + more, [err] + errs)
    ensures stream == Concat([line] + more) + end
  {
    assert stream[|line|..] == rest;
    assert ([line] + more)[1..] == more && ([err] + errs)[1..] == errs;
    assert line + (Concat(more) + end) == (line + Concat(more)) + end;
  }

  /** One call, with a buffer of its own. */
  method OneLine(rd: Reader, maxlen: int) returns (line: seq<byte>, failed: bool)
    requires rd.Valid()
    modifies rd, rd.readbuf, rd.feed
    ensures rd.Valid()
    ensures old(rd.Unread()) == line + rd.Unread() && LineOf(old(rd.Unread()), line, maxlen, failed)
  {
    ghost var stream := rd.Unread();
    var buf := new byte[if maxlen < 1 then 1 else maxlen];
    var count, err := rd.Readline(buf, maxlen);
    line, failed := [], err;
    if count != -1 {
      line := buf[..count];
    }
    LineOfStream(stream, maxlen);
  }

  /** A run of calls of Readline with these buffer sizes, whatever the sizes of the
      reads and whenever they fail: the strings returned, followed by what is
      still unread, are what was unread before. */
  method ReadLines(rd: Reader, maxlens: seq<int>) returns (lines: seq<seq<byte>>, failed: seq<bool>)
    requires rd.Valid()
    modifies rd, rd.readbuf, rd.feed
    ensures rd.Valid()
    ensures old(rd.Unread()) == Concat(lines) + rd.Unread()
    ensures RunOf(old(rd.Unread()), maxlens, lines, failed)
    ensures true !in failed ==> lines == Lines(old(rd.Unread()), maxlens)
    decreases |maxlens|
  {
    lines, failed := [], [];
    ghost var stream := rd.Unread();
    if maxlens == [] {
      return;
    }
    var line, err := OneLine(rd, maxlens[0]);
    ghost var rest := rd.Unread();
    var more, errs := ReadLines(rd, maxlens[1..]);
    RunCons(stream, line, rest, maxlens, err, more, errs, rd.Unread());
    lines, failed := [line] + more, [err] + errs;
    if true !in failed {
      RunWithoutErrors(stream, maxlens, lines, failed);
    }
  }

  lemma LineIs(stream: seq<byte>, line: seq<byte>, rest: seq<byte>, room: nat)
    requires stream == line + rest && |line| <= room
    requires forall i | 0 <= i < |line| - 1 :: line[i] != NEWLINE
    requires |line| == room || rest == [] || (line != [] && line[|line| - 1] == NEWLINE)
    ensures line == stream[..LineLength(stream, room)]
  {
    LineLengthIs(stream, room, |line|);
  }
}
