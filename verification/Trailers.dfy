/** The trailer splitter of gitlint_rules.py.  The two regular expressions are
    parameters; a section is kept as its lines, which the source joins. */
module Trailers {
  import opened Wrappers

  /** The tests is_trailer and is_trailer_multiline. */
  datatype Rules = Rules(isTrailer: string -> bool, isContinuation: string -> bool)

  datatype Item = Trailer(lines: seq<string>) | Section(lines: seq<string>)

  /** Python's lines[i:], which is empty from the end on. */
  function From(lines: seq<string>, i: nat): seq<string> {
    if i <= |lines| then lines[i..] else []
  }

  // ---- how far a trailer and a section reach ------------------------------

  /** End of the continuation lines from k on. */
  function TrailerEnd(R: Rules, lines: seq<string>, k: nat): (n: nat)
    requires k <= |lines|
    ensures k <= n <= |lines|
    ensures n < |lines| ==> R.isTrailer(lines[n]) || !R.isContinuation(lines[n])
    ensures forall i | k <= i < n :: !R.isTrailer(lines[i]) && R.isContinuation(lines[i])
    decreases |lines| - k
  {
    if k < |lines| && !R.isTrailer(lines[k]) && R.isContinuation(lines[k]) then TrailerEnd(R, lines, k + 1) else k
  }

  /** End of the section lines from k on. */
  function SectionEnd(R: Rules, lines: seq<string>, k: nat): (n: nat)
    requires k <= |lines|
    ensures k <= n <= |lines|
    ensures n < |lines| ==> R.isTrailer(lines[n]) || lines[n] == ""
    ensures forall i | k <= i < n :: !R.isTrailer(lines[i]) && lines[i] != ""
    decreases |lines| - k
  {
    if k < |lines| && !R.isTrailer(lines[k]) && lines[k] != "" then SectionEnd(R, lines, k + 1) else k
  }

  /** Where the next item starts after a section: at its end, except that a
      section of two or more lines that runs to the end gives its last line back. */
  function AfterSection(R: Rules, lines: seq<string>): (n: nat)
    requires lines != []
    ensures 1 <= n <= |lines|
  {
    var n := SectionEnd(R, lines, 1);
    if n == |lines| && n > 1 then n - 1 else n
  }

  // ---- the methods of the source ------------------------------------------

  /** Trailer.from_lines. */
  method FromLines(R: Rules, lines: seq<string>) returns (trailer: Option<seq<string>>, rest: seq<string>)
    requires lines != []
    ensures !R.isTrailer(lines[0]) ==> trailer == None && rest == lines
    ensures R.isTrailer(lines[0]) ==>
              var n := TrailerEnd(R, lines, 1); trailer == Some(lines[..n]) && rest == lines[n..]
  {
    if !R.isTrailer(lines[0]) {
      return None, lines;
    }
    var group := [lines[0]];
    var i, k, ended := 1, 1, true;
    while k < |lines| && ended
      invariant 1 <= k <= |lines|
      invariant ended ==> TrailerEnd(R, lines, 1) == TrailerEnd(R, lines, k) && i == (if k == 1 then 1 else k - 1)
      invariant !ended ==> i == TrailerEnd(R, lines, 1) < |lines|
      invariant group == if ended then lines[..k] else lines[..i]
      decreases |lines| - k, ended
    {
      i := k;
      var peek := lines[k];
      if R.isTrailer(peek) {
        ended := false;
      } else if R.isContinuation(peek) {
        group := group + [peek];
        k := k + 1;
      } else {
        ended := false;
      }
    }
    if ended {
      i := i + 1;
    }
    trailer, rest := Some(group), From(lines, i);
  }

  /** Trailer.pull_non_trailer, which lacks the else of from_lines. */
  method PullNonTrailer(R: Rules, lines: seq<string>) returns (section: seq<string>, rest: seq<string>)
    requires lines != []
    ensures lines[0] == "" ==> section == [""] && rest == lines[1..]
    ensures lines[0] != "" ==> section == lines[..SectionEnd(R, lines, 1)] && rest == lines[AfterSection(R, lines)..]
  {
    if lines[0] == "" {
      return [""], lines[1..];
    }
    section := [lines[0]];
    var i, k, more := 1, 1, true;
    while k < |lines| && more
      invariant 1 <= k <= |lines|
      invariant more ==> SectionEnd(R, lines, 1) == SectionEnd(R, lines, k) && i == (if k == 1 then 1 else k - 1)
      invariant !more ==> i == SectionEnd(R, lines, 1) < |lines|
      invariant section == if more then lines[..k] else lines[..i]
      decreases |lines| - k, more
    {
      i := k;
      if R.isTrailer(lines[k]) || lines[k] == "" {
        more := false;
      } else {
        section := section + [lines[k]];
        k := k + 1;
      }
    }
    rest := From(lines, i);
  }

  function Flatten(items: seq<Item>): seq<string> {
    if items == [] then [] else items[0].lines + Flatten(items[1..])
  }

  /** The items that the generator yields. */
  function Split(R: Rules, lines: seq<string>): seq<Item>
    decreases |lines|
  {
    if lines == [] then []
    else if R.isTrailer(lines[0]) then
      var n := TrailerEnd(R, lines, 1);
      [Trailer(lines[..n])] + Split(R, lines[n..])
    else if lines[0] == "" then [Section([""])] + Split(R, lines[1..])
    else [Section(lines[..SectionEnd(R, lines, 1)])] + Split(R, lines[AfterSection(R, lines)..])
  }

  /** One round of the generator: a trailer if there is one, else a section. */
  method NextItem(R: Rules, lines: seq<string>) returns (item: Item, rest: seq<string>)
    requires lines != []
    ensures |rest| < |lines| && Split(R, lines) == [item] + Split(R, rest)
    ensures ProperItem(R, item) && item.lines <= lines
  {
    var trailer;
    trailer, rest := FromLines(R, lines);
    if trailer.Some? {
      item := Trailer(trailer.value);
    } else {
      var section;
      section, rest := PullNonTrailer(R, lines);
      item := Section(section);
    }
  }

  /** split_trailers_and_body terminates because every round consumes a line. */
  method SplitTrailersAndBody(R: Rules, body: seq<string>) returns (items: seq<Item>, ghost front: seq<Item>)
    ensures items == Split(R, body)
    ensures Divides(R, body, front) && items == front + Repeat(front)
    ensures Flatten(items) == body + if RepeatsLast(R, body) then [body[|body| - 1]] else []
  {
    items := [];
    var lines := body;
    while lines != []
      invariant items + Split(R, lines) == Split(R, body)
      decreases |lines|
    {
      var item, rest := NextItem(R, lines);
      assert items + ([item] + Split(R, rest)) == (items + [item]) + Split(R, rest);
      items, lines := items + [item], rest;
    }
    assert items + [] == items;
    FlattenSplit(R, body);
    front := SplitDivides(R, body);
  }

  // ---- the kinds and borders of the items ---------------------------------

  /** An item is a trailer exactly if it starts with a trailer line, which continuation
      lines may follow; a section is a blank line, or lines that are neither blank nor
      trailer lines. */
  ghost predicate ProperItem(R: Rules, item: Item) {
    && item.lines != []
    && (item.Trailer? <==> R.isTrailer(item.lines[0]))
    && forall j | 1 <= j < |item.lines| :: CouldTake(R, item, item.lines[j])
  }

  /** The line could stand in the item, behind its first line. */
  predicate CouldTake(R: Rules, item: Item, line: string)
    requires item.lines != []
  {
    && !R.isTrailer(line)
    && if item.Trailer? then R.isContinuation(line) else item.lines[0] != "" && line != ""
  }

  /** Each item is proper, and could not take the line that starts the next one. */
  ghost predicate ProperItems(R: Rules, items: seq<Item>) {
    && (forall i | 0 <= i < |items| :: ProperItem(R, items[i]))
    && forall i | 0 <= i < |items| - 1 :: !CouldTake(R, items[i], items[i + 1].lines[0])
  }

  /** The items are the lines of the body, divided properly. */
  ghost predicate Divides(R: Rules, body: seq<string>, items: seq<Item>) {
    Flatten(items) == body && ProperItems(R, items)
  }

  /** The last item again, if it is a section of two lines or more: its last line. */
  ghost function Repeat(items: seq<Item>): seq<Item>
  {
    if items != [] && items[|items| - 1].Section? && |items[|items| - 1].lines| >= 2 then
      var last := items[|items| - 1].lines;
      [Section([last[|last| - 1]])]
    else []
  }

  /** The generator yields a proper division of the body, and its last line once more
      exactly if the division ends in a section of two lines or more. */
  lemma {:induction false} SplitDivides(R: Rules, body: seq<string>) returns (front: seq<Item>)
    ensures Divides(R, body, front) && Split(R, body) == front + Repeat(front)
    decreases |body|
  {
    if body == [] {
      front := [];
    } else if R.isTrailer(body[0]) {
      front := DivideMore(R, body, TrailerEnd(R, body, 1), Trailer(body[..TrailerEnd(R, body, 1)]));
    } else if body[0] == "" {
      assert body[..1] == [""];
      front := DivideMore(R, body, 1, Section([""]));
    } else {
      var n := SectionEnd(R, body, 1);
      if n < |body| || n == 1 {
        front := DivideMore(R, body, n, Section(body[..n]));
      } else {
        front := [Section(body)];
        assert body[n - 1..] == [body[n - 1]] && body[..n] == body;
        SplitOneLine(R, body[n - 1]);
        FlattenFirst(Section(body), []);
        assert front == [Section(body)] + [] && Flatten([]) == [] && body + [] == body;
        assert Split(R, body) == front + [Section([body[n - 1]])];
      }
    }
  }

  /** One item, and the division of the rest. */
  lemma {:induction false} DivideMore(R: Rules, body: seq<string>, n: nat, item: Item) returns (front: seq<Item>)
    requires 1 <= n <= |body| && item.lines == body[..n] && ProperItem(R, item)
    requires n < |body| ==> !CouldTake(R, item, body[n])
    requires Split(R, body) == [item] + Split(R, body[n..])
    requires n == |body| ==> Repeat([item]) == []
    ensures Divides(R, body, front) && Split(R, body) == front + Repeat(front)
    decreases |body|, 0
  {
    var more := SplitDivides(R, body[n..]);
    front := [item] + more;
    FlattenFirst(item, more);
    assert body[..n] + body[n..] == body;
    ProperCons(R, item, more, body[n..]);
    RepeatCons(item, more, body[n..]);
    assert [item] + (more + Repeat(more)) == front + Repeat(more);
  }

  lemma RepeatCons(item: Item, more: seq<Item>, rest: seq<string>)
    requires Flatten(more) == rest && (rest == [] ==> Repeat([item]) == [])
    requires forall i | 0 <= i < |more| :: more[i].lines != []
    ensures Repeat([item] + more) == Repeat(more)
  {
    if more == [] { assert [item] + more == [item]; }
  }

  lemma ProperCons(R: Rules, item: Item, more: seq<Item>, rest: seq<string>)
    requires ProperItem(R, item) && ProperItems(R, more) && Flatten(more) == rest
    requires rest != [] ==> !CouldTake(R, item, rest[0])
    ensures ProperItems(R, [item] + more)
    ensures forall i | 0 <= i < |more| :: more[i].lines != []
  {
    var items := [item] + more;
    forall i | 0 <= i < |items| - 1
      ensures !CouldTake(R, items[i], items[i + 1].lines[0])
    {
      if i > 0 { assert items[i] == more[i - 1] && items[i + 1] == more[i]; }
    }
  }

  /** There is no other proper division. */
  lemma {:induction false} DivisionIsUnique(R: Rules, x: seq<Item>, y: seq<Item>)
    requires ProperItems(R, x) && ProperItems(R, y) && Flatten(x) == Flatten(y)
    ensures x == y
    decreases |x|
  {
    if x != [] && y != [] {
      NotShorter(R, x, y);
      NotShorter(R, y, x);
      var a, b := x[0].lines, y[0].lines;
      assert a == Flatten(x)[..|a|] && b == Flatten(y)[..|b|];
      assert Flatten(x[1..]) == Flatten(x)[|a|..] && Flatten(y[1..]) == Flatten(y)[|b|..];
      DivisionIsUnique(R, x[1..], y[1..]);
      assert x == [x[0]] + x[1..] && y == [y[0]] + y[1..];
    }
  }

  lemma NotShorter(R: Rules, x: seq<Item>, y: seq<Item>)
    requires x != [] && y != [] && ProperItems(R, x) && ProperItems(R, y) && Flatten(x) == Flatten(y)
    ensures |x[0].lines| >= |y[0].lines|
    ensures x[0].Trailer? == y[0].Trailer? && x[0].lines[0] == y[0].lines[0]
  {
    var a, b, lines := x[0].lines, y[0].lines, Flatten(x);
    assert a[0] == lines[0] == b[0];
    if |a| < |b| {
      NextStarts(R, x);
      assert false;
    }
  }

  /** The second item starts where the first one ends. */
  lemma NextStarts(R: Rules, x: seq<Item>)
    requires x != [] && ProperItems(R, x) && |x[0].lines| < |Flatten(x)|
    ensures |x| > 1 && Flatten(x)[|x[0].lines|] == x[1].lines[0]
  {
    assert x[1..] != [];
    assert Flatten(x[1..]) == x[1].lines + Flatten(x[1..][1..]);
  }

  // ---- what the items flatten to ------------------------------------------

  datatype Place = Outside | InTrailer | InSection | Blank

  /** Where a line stands, given where the previous one stood. */
  function Step(R: Rules, p: Place, line: string): Place {
    if R.isTrailer(line) then InTrailer
    else if p.InTrailer? && R.isContinuation(line) then InTrailer
    else if line == "" then Blank
    else InSection
  }

  function PlaceOf(R: Rules, p: Place, lines: seq<string>): Place
    decreases |lines|
  {
    if lines == [] then p else PlaceOf(R, Step(R, p, lines[0]), lines[1..])
  }

  /** The last two lines both stand in a section. */
  predicate RepeatsLast(R: Rules, body: seq<string>) {
    && |body| >= 2
    && PlaceOf(R, Outside, body[..|body| - 1]) == InSection
    && PlaceOf(R, Outside, body).InSection?
  }

  lemma {:induction false} PlaceOfConcat(R: Rules, p: Place, a: seq<string>, b: seq<string>)
    ensures PlaceOf(R, p, a + b) == PlaceOf(R, PlaceOf(R, p, a), b)
    decreases |a|
  {
    if a == [] {
      assert a + b == b;
    } else {
      PlaceOfConcat(R, Step(R, p, a[0]), a[1..], b);
      assert (a + b)[1..] == a[1..] + b;
    }
  }

  /** A chunk that starts afresh: its lines all stand at the same place, and the
      rest of the body does not depend on what came before it. */
  ghost predicate Chunk(R: Rules, chunk: seq<string>, rest: seq<string>, p: Place) {
    && chunk != [] && PlaceOf(R, Outside, chunk) == p
    && (rest != [] ==>
          && Step(R, p, rest[0]) == Step(R, Outside, rest[0])
          && (p.InSection? ==> !Step(R, p, rest[0]).InSection?))
  }

  lemma {:induction false} SamePlace(R: Rules, p: Place, lines: seq<string>)
    requires forall i | 0 <= i < |lines| :: Step(R, p, lines[i]) == p
    ensures PlaceOf(R, p, lines) == p
  {
    if lines != [] { SamePlace(R, p, lines[1..]); }
  }

  lemma TrailerChunk(R: Rules, lines: seq<string>)
    requires lines != [] && R.isTrailer(lines[0])
    ensures var n := TrailerEnd(R, lines, 1); Chunk(R, lines[..n], lines[n..], InTrailer)
  {
    var n := TrailerEnd(R, lines, 1);
    SamePlace(R, InTrailer, lines[..n][1..]);
  }

  lemma SectionChunk(R: Rules, lines: seq<string>)
    requires lines != [] && !R.isTrailer(lines[0]) && lines[0] != ""
    ensures var n := SectionEnd(R, lines, 1); Chunk(R, lines[..n], lines[n..], InSection)
    ensures SectionEnd(R, lines, 1) == |lines| > 1 ==> PlaceOf(R, Outside, lines[..|lines| - 1]) == InSection
  {
    var n := SectionEnd(R, lines, 1);
    SamePlace(R, InSection, lines[..n][1..]);
    if n == |lines| > 1 {
      SamePlace(R, InSection, lines[..n - 1][1..]);
    }
  }

  /** After a chunk, only the rest decides whether the last line is repeated. */
  lemma RestDecides(R: Rules, chunk: seq<string>, rest: seq<string>, p: Place)
    requires Chunk(R, chunk, rest, p)
    ensures rest != [] ==> (RepeatsLast(R, chunk + rest) <==> RepeatsLast(R, rest))
  {
    if rest != [] {
      var body := chunk + rest;
      PlaceOfConcat(R, Outside, chunk, rest);
      assert PlaceOf(R, p, rest) == PlaceOf(R, Outside, rest);
      var front := rest[..|rest| - 1];
      assert body[..|body| - 1] == chunk + front;
      PlaceOfConcat(R, Outside, chunk, front);
      if front != [] {
        assert PlaceOf(R, p, front) == PlaceOf(R, Outside, front);
      }
    }
  }

  lemma BlankChunk(R: Rules, lines: seq<string>)
    requires lines != [] && !R.isTrailer(lines[0]) && lines[0] == ""
    ensures Chunk(R, lines[..1], lines[1..], Blank)
  {
    assert PlaceOf(R, Outside, lines[..1]) == Step(R, Outside, lines[0]);
  }

  /** The items flatten to the body itself, plus one repeat of the last line
      exactly when the last two lines stand in the same section. */
  lemma {:induction false} FlattenSplit(R: Rules, body: seq<string>)
    ensures Flatten(Split(R, body)) == body + if RepeatsLast(R, body) then [body[|body| - 1]] else []
    decreases |body|
  {
    if body == [] {
    } else if R.isTrailer(body[0]) {
      TrailerChunk(R, body);
      var n := TrailerEnd(R, body, 1);
      assert n == |body| ==> body[..n] == body;
      FlattenChunk(R, body, n, InTrailer, Trailer(body[..n]));
    } else if body[0] == "" {
      BlankChunk(R, body);
      assert body[..1] == [""];
      FlattenChunk(R, body, 1, Blank, Section([""]));
    } else {
      SectionChunk(R, body);
      var n := SectionEnd(R, body, 1);
      if n < |body| || n == 1 {
        FlattenChunk(R, body, n, InSection, Section(body[..n]));
      } else {
        var last := body[n - 1];
        assert body[n - 1..] == [last] && body[..n] == body;
        SplitOneLine(R, last);
        assert Split(R, body) == [Section(body), Section([last])];
        FlattenTwo(body, [last]);
      }
    }
  }

  /** A body on which the last line is repeated. */
  lemma RepeatedLastLine(R: Rules)
    requires !R.isTrailer("first") && !R.isTrailer("last")
    ensures Flatten(Split(R, ["first", "last"])) == ["first", "last", "last"]
  {
    var body := ["first", "last"];
    SectionChunk(R, body);
    assert body[..2] == body && SectionEnd(R, body, 1) == 2;
    FlattenSplit(R, body);
  }

  lemma SplitOneLine(R: Rules, line: string)
    requires !R.isTrailer(line) && line != ""
    ensures Split(R, [line]) == [Section([line])]
  {
    var lines := [line];
    assert lines[..1] == lines && lines[1..] == [];
    assert Split(R, []) == [];
  }

  lemma FlattenTwo(a: seq<string>, b: seq<string>)
    ensures Flatten([Section(a), Section(b)]) == a + b
  {
    var items := [Section(a), Section(b)];
    assert items[1..] == [Section(b)] && items[1..][1..] == [];
    assert Flatten(items[1..]) == b + Flatten([]);
    assert b + [] == b;
  }

  lemma FlattenChunk(R: Rules, body: seq<string>, n: nat, p: Place, item: Item)
    requires 1 <= n <= |body| && Chunk(R, body[..n], body[n..], p) && item.lines == body[..n]
    requires Split(R, body) == [item] + Split(R, body[n..])
    requires n == |body| ==> !RepeatsLast(R, body)
    ensures Flatten(Split(R, body)) == body + if RepeatsLast(R, body) then [body[|body| - 1]] else []
    decreases |body|, 0
  {
    var chunk, rest := body[..n], body[n..];
    FlattenSplit(R, rest);
    RestDecides(R, chunk, rest, p);
    assert chunk + rest == body;
    FlattenFirst(item, Split(R, rest));
    hide RepeatsLast, Split, Flatten;
    var again := if RepeatsLast(R, rest) then [rest[|rest| - 1]] else [];
    assert chunk + (rest + again) == body + again;
  }

  lemma FlattenFirst(item: Item, items: seq<Item>)
    ensures Flatten([item] + items) == item.lines + Flatten(items)
  {
    assert ([item] + items)[1..] == items;
  }
}
