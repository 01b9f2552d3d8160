/** The PMI-1 key-value spaces of pmi.c, as values: what each operation does to
    the table of records of one process. */
module Kvs {

  datatype KeyState = Global | Local | Disabled

  datatype Entry = Entry(state: KeyState, key: string, value: string)

  /** One kvs_rec: the entries are its three parallel arrays read together. */
  datatype Space = Space(name: string, defunct: bool, entries: seq<Entry>)

  type Table = seq<Space>

  datatype Triple = Triple(name: string, key: string, value: string)

  // ---- looking things up --------------------------------------------------

  /** Position of the first entry with this key; the length if there is none. */
  function FindKey(es: seq<Entry>, key: string): (j: nat)
    ensures j <= |es|
    ensures j < |es| ==> es[j].key == key
    ensures forall i | 0 <= i < j :: es[i].key != key
  {
    if es == [] || es[0].key == key then 0
    else
      assert forall i | 1 <= i < |es| :: es[i] == es[1..][i - 1];
      1 + FindKey(es[1..], key)
  }

  /** Position of the first record with this name, defunct or not. */
  function FindSpace(t: Table, name: string): (i: nat)
    ensures i <= |t|
    ensures i < |t| ==> t[i].name == name
    ensures forall k | 0 <= k < i :: t[k].name != name
  {
    if t == [] || t[0].name == name then 0
    else
      assert forall k | 1 <= k < |t| :: t[k] == t[1..][k - 1];
      1 + FindSpace(t[1..], name)
  }

  /** Position of the first record with this name that is not defunct. */
  function FindLive(t: Table, name: string): (i: nat)
    ensures i <= |t|
    ensures i < |t| ==> t[i].name == name && !t[i].defunct
    ensures forall k | 0 <= k < i :: t[k].defunct || t[k].name != name
  {
    if t == [] || (!t[0].defunct && t[0].name == name) then 0
    else
      assert forall k | 1 <= k < |t| :: t[k] == t[1..][k - 1];
      1 + FindLive(t[1..], name)
  }

  datatype Lookup = Found(value: string) | NoSuchKey | NoSuchSpace

  /** What PMI_KVS_Get finds. */
  function Get(t: Table, name: string, key: string): Lookup {
    var i := FindLive(t, name);
    if i == |t| then NoSuchSpace
    else
      var j := FindKey(t[i].entries, key);
      if j == |t[i].entries| then NoSuchKey else Found(t[i].entries[j].value)
  }

  /** No copy of the key is in front of position j. */
  predicate NotBefore(es: seq<Entry>, key: string, j: nat)
    requires j <= |es|
  {
    forall k | 0 <= k < j :: es[k].key != key
  }

  predicate LiveName(s: Space, name: string) {
    !s.defunct && s.name == name
  }

  /** What Get finds, record by record and entry by entry. */
  lemma GetIs(t: Table, name: string, key: string)
    ensures Get(t, name, key).NoSuchSpace? <==> forall i | 0 <= i < |t| :: !LiveName(t[i], name)
    ensures forall i | 0 <= i < |t| && LiveName(t[i], name) && (forall k | 0 <= k < i :: !LiveName(t[k], name)) ::
              && (Get(t, name, key).NoSuchKey? <==> NotBefore(t[i].entries, key, |t[i].entries|))
              && forall j | 0 <= j < |t[i].entries| && t[i].entries[j].key == key && NotBefore(t[i].entries, key, j) ::
                   Get(t, name, key) == Found(t[i].entries[j].value)
  {
    hide FindLive, FindKey;
    forall i | 0 <= i < |t| && LiveName(t[i], name) && (forall k | 0 <= k < i :: !LiveName(t[k], name))
      ensures FindLive(t, name) == i
    {
      FirstLive(t, name, i);
    }
    var i := FindLive(t, name);
    if i < |t| { FirstKey(t[i].entries, key); }
  }

  lemma FirstLive(t: Table, name: string, i: nat)
    requires i < |t| && LiveName(t[i], name) && (forall k | 0 <= k < i :: !LiveName(t[k], name))
    ensures FindLive(t, name) == i
  {
    hide FindLive;
    assert !(FindLive(t, name) < i);
    assert !(FindLive(t, name) > i);
  }

  lemma FirstKey(es: seq<Entry>, key: string)
    ensures FindKey(es, key) == |es| <==> NotBefore(es, key, |es|)
    ensures forall j | 0 <= j < |es| && es[j].key == key && NotBefore(es, key, j) :: FindKey(es, key) == j
  {
    hide FindKey;
    forall j | 0 <= j < |es| && es[j].key == key && NotBefore(es, key, j)
      ensures FindKey(es, key) == j
    {
      assert !(FindKey(es, key) < j);
      assert !(FindKey(es, key) > j);
    }
  }

  // ---- putting ------------------------------------------------------------

  /** _kvs_put on the entries of one record.  With noDup the key is appended
      without a search; otherwise the first copy is replaced. */
  function PutEntry(es: seq<Entry>, key: string, value: string, local: bool, noDup: bool): seq<Entry> {
    var j := if noDup then |es| else FindKey(es, key);
    if j < |es| then es[j := Entry(if local then Local else es[j].state, es[j].key, value)]
    else es + [Entry(if local then Local else Global, key, value)]
  }

  function Put(t: Table, name: string, key: string, value: string, local: bool, noDup: bool): (r: Table)
    ensures |r| == |t|
  {
    var i := FindSpace(t, name);
    if i == |t| then t
    else t[i := t[i].(entries := PutEntry(t[i].entries, key, value, local, noDup))]
  }

  lemma FirstCopyStays(es: seq<Entry>, key: string, value: string, local: bool, noDup: bool)
    ensures var es' := PutEntry(es, key, value, local, noDup);
            && FindKey(es', key) == FindKey(es, key) < |es'|
            && es'[FindKey(es, key)].value
               == if noDup && FindKey(es, key) < |es| then es[FindKey(es, key)].value else value
  {
    var es', j := PutEntry(es, key, value, local, noDup), FindKey(es, key);
    assert forall i | 0 <= i < j :: es'[i].key != key;
    assert es'[j].key == key;
  }

  /** A put replaces the value of the first copy, or appends a pair if there is none or
      duplicates are not searched for.  A local put leaves the key LOCAL; a put from
      the server keeps the state of a copy and makes a new one GLOBAL. */
  lemma PutEntryIs(es: seq<Entry>, key: string, value: string, local: bool, noDup: bool)
    ensures var es' := PutEntry(es, key, value, local, noDup);
            && (noDup || NotBefore(es, key, |es|) ==>
                  es' == es + [Entry(if local then Local else Global, key, value)])
            && forall j | 0 <= j < |es| && !noDup && es[j].key == key && NotBefore(es, key, j) ::
                 && |es'| == |es|
                 && es'[j] == Entry(if local then Local else es[j].state, key, value)
                 && forall k | 0 <= k < |es| && k != j :: es'[k] == es[k]
  {
    FirstKey(es, key);
  }

  /** A put changes the first record of the name, defunct or not, and there only the
      pairs. */
  lemma PutIs(t: Table, name: string, key: string, value: string, local: bool, noDup: bool)
    ensures (forall k | 0 <= k < |t| :: t[k].name != name) ==> Put(t, name, key, value, local, noDup) == t
    ensures forall i | 0 <= i < |t| && t[i].name == name && (forall k | 0 <= k < i :: t[k].name != name) ::
              Put(t, name, key, value, local, noDup)
              == t[i := Space(name, t[i].defunct, PutEntry(t[i].entries, key, value, local, noDup))]
  {
    forall i | 0 <= i < |t| && t[i].name == name && (forall k | 0 <= k < i :: t[k].name != name)
      ensures FindSpace(t, name) == i
    {
      assert !(FindSpace(t, name) < i);
      assert !(FindSpace(t, name) > i);
    }
  }

  lemma OtherKeysStay(es: seq<Entry>, key: string, value: string, local: bool, noDup: bool, other: string)
    requires other != key
    ensures var es', j := PutEntry(es, key, value, local, noDup), FindKey(es, other);
            if j < |es| then FindKey(es', other) == j && es'[j].value == es[j].value
            else FindKey(es', other) == |es'|
  {
    var es', j := PutEntry(es, key, value, local, noDup), FindKey(es, other);
    assert forall i | 0 <= i < |es| :: es'[i].key == es[i].key;
    assert j < |es| ==> es'[j] == es[j];
  }

  /** ... and nothing is found differently under another key or name. */
  lemma GetOfOther(t: Table, name: string, key: string, value: string, local: bool, noDup: bool,
                   name': string, key': string)
    requires name' != name || key' != key
    ensures Get(Put(t, name, key, value, local, noDup), name', key') == Get(t, name', key')
  {
    var i := FindSpace(t, name);
    if i < |t| {
      var s := t[i].(entries := PutEntry(t[i].entries, key, value, local, noDup));
      LiveUpdate(t, i, s, name');
      if key' != key { OtherKeysStay(t[i].entries, key, value, local, noDup, key'); }
    }
  }

  lemma {:induction false} LiveUpdate(t: Table, i: nat, s: Space, name: string)
    requires i < |t| && s.name == t[i].name && s.defunct == t[i].defunct
    ensures FindLive(t[i := s], name) == FindLive(t, name)
  {
    if !(!t[0].defunct && t[0].name == name) {
      if i > 0 {
        LiveUpdate(t[1..], i - 1, s, name);
        assert t[i := s][1..] == t[1..][i - 1 := s];
      } else {
        assert t[0 := s][1..] == t[1..];
      }
    }
  }

  lemma LiveFirst(t: Table, name: string)
    requires FindSpace(t, name) < |t|
    ensures FindLive(t, name) == FindSpace(t, name) <==> !t[FindSpace(t, name)].defunct
  {
    assert FindLive(t, name) >= FindSpace(t, name);
  }

  /** For every table: the next Get finds what was put if the first record of the name
      is live and, without a search for duplicates, had no copy of the key; otherwise
      it finds what it would have found before. */
  lemma GetAfterPut(t: Table, name: string, key: string, value: string, local: bool, noDup: bool)
    ensures var i := FindSpace(t, name);
            Get(Put(t, name, key, value, local, noDup), name, key)
            == if i < |t| && !t[i].defunct && !(noDup && FindKey(t[i].entries, key) < |t[i].entries|) then Found(value)
               else Get(t, name, key)
  {
    var i := FindSpace(t, name);
    if i < |t| {
      var s := t[i].(entries := PutEntry(t[i].entries, key, value, local, noDup));
      LiveUpdate(t, i, s, name);
      LiveFirst(t, name);
      FirstCopyStays(t[i].entries, key, value, local, noDup);
    }
  }

  /** A put goes to a record that was destroyed, and Get looks in its successor. */
  lemma PutIsLost(noDup: bool)
    ensures Get(Put([Space("a", true, []), Space("a", false, [])], "a", "k", "v", true, noDup), "a", "k") == NoSuchKey
  {
    var t := [Space("a", true, []), Space("a", false, [])];
    GetAfterPut(t, "a", "k", "v", true, noDup);
    assert t[1..] == [Space("a", false, [])];
    assert FindSpace(t, "a") == 0 && FindLive(t, "a") == 1;
  }

  // ---- committing ---------------------------------------------------------

  function Swap(es: seq<Entry>, i: nat, j: nat): seq<Entry>
    requires i < |es| && j < |es|
  {
    es[i := es[j]][j := es[i]]
  }

  /** The swap loop of PMI_KVS_Commit from position j on, with lp entries moved
      to the front so far. */
  function SwapLoop(es: seq<Entry>, j: nat, lp: nat): (r: (seq<Entry>, nat))
    requires lp <= j <= |es|
    ensures |r.0| == |es| && r.1 <= |es|
    decreases |es| - j
  {
    if j == |es| then (es, lp)
    else if es[j].state.Global? then SwapLoop(es, j + 1, lp)
    else SwapLoop(Swap(es, j, lp), j + 1, lp + 1)
  }

  /** The entries that are not GLOBAL, in order. */
  function NonGlobal(es: seq<Entry>): seq<Entry> {
    if es == [] then []
    else if es[0].state.Global? then NonGlobal(es[1..])
    else [es[0]] + NonGlobal(es[1..])
  }

  /** The GLOBAL entries as the swaps leave them: every entry that is moved to the front
      past them takes the first one to the back. */
  function Rotated(es: seq<Entry>): seq<Entry> {
    if es == [] then []
    else
      var last, front := es[|es| - 1], Rotated(es[..|es| - 1]);
      if last.state.Global? then front + [last] else if front == [] then [] else front[1..] + [front[0]]
  }

  /** The positions of the entries that are not GLOBAL. */
  function LocalPositions(es: seq<Entry>): (ps: seq<nat>)
    ensures forall i | 0 <= i < |ps| :: ps[i] < |es|
  {
    if es == [] then []
    else
      var front := es[..|es| - 1];
      LocalPositions(front) + if es[|es| - 1].state.Global? then [] else [|es| - 1]
  }

  function CommitSpace(s: Space): Space {
    if s.defunct then s else s.(entries := SwapLoop(s.entries, 0, 0).0)
  }

  function CommitTable(t: Table): (r: Table)
    ensures |r| == |t|
  {
    seq(|t|, i requires 0 <= i < |t| => CommitSpace(t[i]))
  }

  function Tagged(name: string, es: seq<Entry>): (r: seq<Triple>)
    ensures |r| == |es|
  {
    seq(|es|, i requires 0 <= i < |es| => Triple(name, es[i].key, es[i].value))
  }

  /** What one record contributes to the message: its first local_pairs entries. */
  function SentBy(s: Space): seq<Triple> {
    if s.defunct then []
    else
      var (es, lp) := SwapLoop(s.entries, 0, 0);
      Tagged(s.name, es[..lp])
  }

  /** What PMI_KVS_Commit sends. */
  function Sent(t: Table): seq<Triple> {
    if t == [] then [] else SentBy(t[0]) + Sent(t[1..])
  }

  // ---- the barrier --------------------------------------------------------

  function DisableEntry(e: Entry): Entry {
    if e.state.Local? then e.(state := Disabled) else e
  }

  function DisableEntries(es: seq<Entry>): (r: seq<Entry>)
    ensures |r| == |es|
    ensures forall i | 0 <= i < |es| ::
              r[i] == Entry(if es[i].state.Local? then Disabled else es[i].state, es[i].key, es[i].value)
  {
    seq(|es|, i requires 0 <= i < |es| => DisableEntry(es[i]))
  }

  /** _kvs_disable_local_keys. */
  function DisableLocal(t: Table): (r: Table)
    ensures |r| == |t|
  {
    seq(|t|, i requires 0 <= i < |t| => t[i].(entries := DisableEntries(t[i].entries)))
  }

  /** The reply of the barrier, put one pair after the other. */
  function PutAll(t: Table, reply: seq<Triple>, noDup: bool): (r: Table)
    ensures |r| == |t|
    decreases |reply|
  {
    if reply == [] then t
    else PutAll(Put(t, reply[0].name, reply[0].key, reply[0].value, false, noDup), reply[1..], noDup)
  }

  function Barrier(t: Table, reply: seq<Triple>, noDup: bool): (r: Table)
    ensures |r| == |t|
  {
    PutAll(DisableLocal(t), reply, noDup)
  }

  /** A barrier disables the LOCAL keys of every record, defunct or not, and then puts the
      pairs of the reply, the last one last. */
  lemma {:induction false} BarrierIs(t: Table, reply: seq<Triple>, x: Triple, noDup: bool)
    ensures Barrier(t, [], noDup) == seq(|t|, i requires 0 <= i < |t| =>
                                       Space(t[i].name, t[i].defunct, DisableEntries(t[i].entries)))
    ensures Barrier(t, reply + [x], noDup) == Put(Barrier(t, reply, noDup), x.name, x.key, x.value, false, noDup)
  {
    PutAllAppend(DisableLocal(t), reply, x, noDup);
  }

  lemma {:induction false} PutAllAppend(t: Table, reply: seq<Triple>, x: Triple, noDup: bool)
    ensures PutAll(t, reply + [x], noDup) == Put(PutAll(t, reply, noDup), x.name, x.key, x.value, false, noDup)
    decreases |reply|
  {
    hide Put;
    if reply == [] {
      assert reply + [x] == [x] && [x][1..] == [];
    } else {
      var u := Put(t, reply[0].name, reply[0].key, reply[0].value, false, noDup);
      PutAllAppend(u, reply[1..], x, noDup);
      assert (reply + [x])[1..] == reply[1..] + [x];
    }
  }

  /** A commit treats every record on its own, and sends what they hold one after the
      other. */
  lemma {:induction false} CommitIs(t: Table, i: nat)
    requires i < |t|
    ensures CommitTable(t)[i] == CommitSpace(t[i])
    ensures Sent([]) == [] && Sent(t) == Sent(t[..i]) + SentBy(t[i]) + Sent(t[i + 1..])
  {
    hide SentBy, CommitSpace;
    if i == 0 {
      assert t[..0] == [];
    } else {
      CommitIs(t[1..], i - 1);
      assert t[1..][i..] == t[i + 1..];
      assert t[..i][1..] == t[1..][..i - 1];
    }
  }

  // ---- the commit loop partitions -----------------------------------------

  /** The state of the swap loop: the non-GLOBAL entries of was[..j] in front, then
      its GLOBAL ones, then the part that has not been reached. */
  ghost predicate Swapping(was: seq<Entry>, es: seq<Entry>, j: nat, lp: nat) {
    && lp <= j <= |es| == |was|
    && es[..lp] == NonGlobal(was[..j])
    && es[lp..j] == Rotated(was[..j])
    && (forall i | lp <= i < j :: es[i].state.Global?)
    && es[j..] == was[j..]
    && multiset(es) == multiset(was)
  }

  lemma {:induction false} NonGlobalAppend(es: seq<Entry>, e: Entry)
    ensures NonGlobal(es + [e]) == NonGlobal(es) + (if e.state.Global? then [] else [e])
  {
    if es == [] {
      assert es + [e] == [e] && [e][1..] == [];
    } else {
      NonGlobalAppend(es[1..], e);
      assert (es + [e])[1..] == es[1..] + [e];
    }
  }

  lemma SwapKeepsMultiset(es: seq<Entry>, i: nat, j: nat)
    requires i < |es| && j < |es|
    ensures multiset(Swap(es, i, j)) == multiset(es)
  {
  }

  lemma RotatedAppend(es: seq<Entry>, e: Entry)
    ensures var front := Rotated(es);
            Rotated(es + [e]) == if e.state.Global? then front + [e]
                                 else if front == [] then [] else front[1..] + [front[0]]
  {
    assert (es + [e])[..|es|] == es;
  }

  lemma RotateOnce(es: seq<Entry>, j: nat, lp: nat)
    requires lp <= j < |es|
    ensures var block := es[lp..j];
            Swap(es, j, lp)[lp + 1..j + 1] == if block == [] then [] else block[1..] + [block[0]]
  {
  }

  /** One round, as far as all of them start. */
  lemma SwappingRound(was: seq<Entry>, es: seq<Entry>, j: nat, lp: nat)
    requires Swapping(was, es, j, lp) && j < |es|
    ensures es[j] == was[j] && es[j + 1..] == was[j + 1..]
    ensures NonGlobal(was[..j + 1]) == es[..lp] + if es[j].state.Global? then [] else [es[j]]
    ensures var block := es[lp..j];
            Rotated(was[..j + 1]) == if es[j].state.Global? then block + [es[j]]
                                     else if block == [] then [] else block[1..] + [block[0]]
  {
    hide Rotated, NonGlobal;
    assert es[j] == es[j..][0] == was[j];
    assert was[..j + 1] == was[..j] + [was[j]];
    NonGlobalAppend(was[..j], was[j]);
    RotatedAppend(was[..j], was[j]);
    assert es[j + 1..] == es[j..][1..] == was[j..][1..] == was[j + 1..];
  }

  lemma PassOver(was: seq<Entry>, es: seq<Entry>, j: nat, lp: nat)
    requires Swapping(was, es, j, lp) && j < |es| && es[j].state.Global?
    ensures Swapping(was, es, j + 1, lp)
  {
    hide Rotated, NonGlobal;
    SwappingRound(was, es, j, lp);
    assert es[lp..j + 1] == es[lp..j] + [es[j]];
  }

  lemma MoveToFront(was: seq<Entry>, es: seq<Entry>, j: nat, lp: nat)
    requires Swapping(was, es, j, lp) && j < |es| && !es[j].state.Global?
    ensures Swapping(was, Swap(es, j, lp), j + 1, lp + 1)
  {
    hide Rotated, NonGlobal;
    SwappingRound(was, es, j, lp);
    var next := Swap(es, j, lp);
    SwapKeepsMultiset(es, j, lp);
    assert next[..lp + 1] == es[..lp] + [es[j]];
    assert next[j + 1..] == es[j + 1..];
    RotateOnce(es, j, lp);
  }

  lemma {:induction false} SwapLoopPartitions(was: seq<Entry>, es: seq<Entry>, j: nat, lp: nat)
    requires Swapping(was, es, j, lp)
    ensures var (r, k) := SwapLoop(es, j, lp); Swapping(was, r, |was|, k)
    decreases |es| - j
  {
    if j < |es| {
      if es[j].state.Global? {
        PassOver(was, es, j, lp);
        SwapLoopPartitions(was, es, j + 1, lp);
      } else {
        MoveToFront(was, es, j, lp);
        SwapLoopPartitions(was, Swap(es, j, lp), j + 1, lp + 1);
      }
    }
  }

  /** Commit partition: the first local_pairs entries are the non-GLOBAL ones in
      their original order, the rest are GLOBAL, and entries are only permuted. */
  lemma CommitPartitions(es: seq<Entry>)
    ensures var (r, lp) := SwapLoop(es, 0, 0);
            && r[..lp] == NonGlobal(es) && r[lp..] == Rotated(es)
            && (forall i | lp <= i < |r| :: r[i].state.Global?)
            && multiset(r) == multiset(es)
  {
    SwapLoopPartitions(es, es, 0, 0);
    assert es[..|es|] == es;
  }

  /** All of them, in ascending order, and no others. */
  lemma {:induction false} LocalPositionsAre(es: seq<Entry>)
    ensures var ps := LocalPositions(es);
            && (forall i, j | 0 <= i < j < |ps| :: ps[i] < ps[j])
            && (forall i | 0 <= i < |ps| :: !es[ps[i]].state.Global?)
            && forall p | 0 <= p < |es| && !es[p].state.Global? :: p in ps
  {
    if es != [] {
      var front := es[..|es| - 1];
      LocalPositionsAre(front);
      assert es == front + [es[|es| - 1]];
      LocalPositionsAppend(front, es[|es| - 1]);
      hide LocalPositions;
      assert forall p | 0 <= p < |front| && !es[p].state.Global? :: p in LocalPositions(front);
    }
  }

  lemma LocalPositionsAppend(es: seq<Entry>, e: Entry)
    ensures LocalPositions(es + [e]) == LocalPositions(es) + if e.state.Global? then [] else [|es|]
  {
    assert (es + [e])[..|es|] == es;
  }

  lemma {:induction false} NonGlobalPositions(es: seq<Entry>)
    ensures |NonGlobal(es)| == |LocalPositions(es)|
    ensures forall i | 0 <= i < |NonGlobal(es)| :: NonGlobal(es)[i] == es[LocalPositions(es)[i]]
  {
    if es != [] {
      hide NonGlobal, LocalPositions;
      var front, last := es[..|es| - 1], es[|es| - 1];
      NonGlobalPositions(front);
      NonGlobalAppend(front, last);
      LocalPositionsAppend(front, last);
      assert es == front + [last];
    }
  }

  /** The message holds key and value of every entry that is not GLOBAL, in their order,
      under the name of the record; these entries come to the front.  A defunct record
      is left alone. */
  lemma CommitSpaceIs(s: Space)
    ensures s.defunct ==> CommitSpace(s) == s && SentBy(s) == []
    ensures !s.defunct ==>
              var ps, r := LocalPositions(s.entries), CommitSpace(s).entries;
              && CommitSpace(s) == Space(s.name, false, r)
              && |SentBy(s)| == |ps| <= |r| && r[|ps|..] == Rotated(s.entries)
              && forall i | 0 <= i < |ps| ::
                   && r[i] == s.entries[ps[i]]
                   && SentBy(s)[i] == Triple(s.name, s.entries[ps[i]].key, s.entries[ps[i]].value)
  {
    CommitPartitions(s.entries);
    NonGlobalPositions(s.entries);
  }

  lemma {:induction false} NonGlobalHasNone(es: seq<Entry>)
    ensures forall i | 0 <= i < |NonGlobal(es)| :: !NonGlobal(es)[i].state.Global?
  {
    if es != [] { NonGlobalHasNone(es[1..]); }
  }

  lemma {:induction false} SwapLoopIdle(es: seq<Entry>, j: nat, lp: nat)
    requires lp <= |es| && j <= |es|
    requires forall i | 0 <= i < |es| :: es[i].state.Global? <==> i >= lp
    ensures SwapLoop(es, j, if j < lp then j else lp) == (es, lp)
    decreases |es| - j
  {
    if j < |es| {
      if j < lp { assert Swap(es, j, j) == es; }
      SwapLoopIdle(es, j + 1, lp);
    }
  }

  /** A second commit with no change in between swaps nothing and sends the same
      entries. */
  lemma CommitTwice(es: seq<Entry>)
    ensures var (r, lp) := SwapLoop(es, 0, 0); SwapLoop(r, 0, 0) == (r, lp)
  {
    var (r, lp) := SwapLoop(es, 0, 0);
    CommitPartitions(es);
    NonGlobalHasNone(es);
    forall i | 0 <= i < |r|
      ensures r[i].state.Global? <==> i >= lp
    {
      if i < lp { assert r[i] == NonGlobal(es)[i]; }
    }
    SwapLoopIdle(r, 0, lp);
  }

  lemma CommitSpaceTwice(s: Space)
    ensures CommitSpace(CommitSpace(s)) == CommitSpace(s)
    ensures SentBy(CommitSpace(s)) == SentBy(s)
  {
    CommitTwice(s.entries);
  }

  lemma CommitTableTwice(t: Table)
    ensures CommitTable(CommitTable(t)) == CommitTable(t)
  {
    forall i | 0 <= i < |t|
      ensures CommitSpace(CommitSpace(t[i])) == CommitSpace(t[i])
    {
      CommitSpaceTwice(t[i]);
    }
  }

  lemma {:induction false} SentTwice(t: Table)
    ensures Sent(CommitTable(t)) == Sent(t)
  {
    if t != [] {
      SentTwice(t[1..]);
      CommitSpaceTwice(t[0]);
      var u := CommitTable(t);
      assert u[0] == CommitSpace(t[0]) && u[1..] == CommitTable(t[1..]);
      assert Sent(u) == SentBy(u[0]) + Sent(u[1..]);
    }
  }
}
