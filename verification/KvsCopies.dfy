/** How often an iteration returns a key: the copies that the arrays of a rank hold
    after a barrier.  _kvs_disable_local_keys is there to prevent duplicates. */
module KvsCopies {
  import opened Wrappers
  import opened Kvs
  import opened KvsProtocol
  import opened KvsRefinement
  import KvsProcess
  import KvsIterator

  const GLOBALS: set<KeyState> := {Global}
  const LOCALS: set<KeyState> := {Local}
  const OWN: set<KeyState> := {Local, Disabled}
  const ENABLED: set<KeyState> := {Local, Global}
  const ANY: set<KeyState> := {Global, Local, Disabled}

  // ---- counting entries ---------------------------------------------------

  function One(e: Entry, key: string, states: set<KeyState>): nat {
    if e.key == key && e.state in states then 1 else 0
  }

  /** Entries with this key in one of these states. */
  function Count(es: seq<Entry>, key: string, states: set<KeyState>): nat {
    if es == [] then 0 else One(es[0], key, states) + Count(es[1..], key, states)
  }

  lemma {:induction false} CountConcat(a: seq<Entry>, b: seq<Entry>, key: string, states: set<KeyState>)
    ensures Count(a + b, key, states) == Count(a, key, states) + Count(b, key, states)
  {
    if a == [] {
      assert a + b == b;
    } else {
      CountConcat(a[1..], b, key, states);
      assert (a + b)[1..] == a[1..] + b;
    }
  }

  lemma CountAround(es: seq<Entry>, i: nat, key: string, states: set<KeyState>)
    requires i < |es|
    ensures Count(es, key, states) == One(es[i], key, states) + Count(es[..i] + es[i + 1..], key, states)
  {
    CountConcat(es[..i], es[i..], key, states);
    CountConcat(es[..i], es[i + 1..], key, states);
    assert es == es[..i] + es[i..] && es[i..][1..] == es[i + 1..];
  }

  lemma CountUpdate(es: seq<Entry>, i: nat, e: Entry, key: string, states: set<KeyState>)
    requires i < |es|
    ensures Count(es[i := e], key, states) == Count(es, key, states) - One(es[i], key, states) + One(e, key, states)
  {
    CountAround(es, i, key, states);
    CountAround(es[i := e], i, key, states);
    assert es[i := e][..i] == es[..i] && es[i := e][i + 1..] == es[i + 1..];
  }

  lemma RemoveFirst(a: seq<Entry>, b: seq<Entry>, j: nat)
    requires multiset(a) == multiset(b) && a != [] && j < |b| && b[j] == a[0]
    ensures multiset(a[1..]) == multiset(b[..j] + b[j + 1..])
  {
    assert a == [a[0]] + a[1..] && b == b[..j] + [b[j]] + b[j + 1..];
    assert multiset(a) == multiset{a[0]} + multiset(a[1..]);
    assert multiset(b) == multiset(b[..j]) + multiset{b[j]} + multiset(b[j + 1..]);
    assert multiset(b[..j] + b[j + 1..]) == multiset(b[..j]) + multiset(b[j + 1..]);
    assert multiset(a[1..]) == multiset(a) - multiset{a[0]};
  }

  lemma {:induction false} CountPermutes(a: seq<Entry>, b: seq<Entry>, key: string, states: set<KeyState>)
    requires multiset(a) == multiset(b)
    ensures Count(a, key, states) == Count(b, key, states)
    decreases |a|
  {
    if a == [] {
      assert |b| == |multiset(b)| == |multiset(a)| == 0;
    } else {
      assert a[0] in multiset(a);
      assert a[0] in b;
      var j :| 0 <= j < |b| && b[j] == a[0];
      RemoveFirst(a, b, j);
      CountPermutes(a[1..], b[..j] + b[j + 1..], key, states);
      CountAround(b, j, key, states);
    }
  }

  /** What a record contributes to the copies of a key. */
  function InSpace(s: Space, k: Key, states: set<KeyState>): nat {
    if s.name == k.0 then Count(s.entries, k.1, states) else 0
  }

  function Copies(t: Table, k: Key, states: set<KeyState>): nat {
    if t == [] then 0 else InSpace(t[0], k, states) + Copies(t[1..], k, states)
  }

  lemma {:induction false} CopiesUpdate(t: Table, i: nat, s: Space, k: Key, states: set<KeyState>)
    requires i < |t|
    ensures Copies(t[i := s], k, states) == Copies(t, k, states) - InSpace(t[i], k, states) + InSpace(s, k, states)
  {
    if i > 0 {
      CopiesUpdate(t[1..], i - 1, s, k, states);
      assert t[i := s][1..] == t[1..][i - 1 := s];
    } else {
      assert t[0 := s][1..] == t[1..];
    }
  }

  lemma {:induction false} CopiesAlike(t: Table, u: Table, k: Key, states: set<KeyState>)
    requires |t| == |u| && forall s | 0 <= s < |t| :: InSpace(t[s], k, states) == InSpace(u[s], k, states)
    ensures Copies(t, k, states) == Copies(u, k, states)
  {
    if t != [] {
      assert forall s | 0 <= s < |t| - 1 :: t[1..][s] == t[s + 1] && u[1..][s] == u[s + 1];
      CopiesAlike(t[1..], u[1..], k, states);
    }
  }

  // ---- what the operations do to the copies -------------------------------

  /** A put appends a copy unless duplicates are looked for and there is one. */
  lemma PutAppends(t: Table, item: Triple, local: bool, noDup: bool, k: Key, states: set<KeyState>)
    requires FindSpace(t, item.name) < |t| && (noDup || !Holds(t, (item.name, item.key)))
    ensures var added := Entry(if local then Local else Global, item.key, item.value);
            Copies(Put(t, item.name, item.key, item.value, local, noDup), k, states)
            == Copies(t, k, states) + if item.name == k.0 then One(added, k.1, states) else 0
  {
    var i := FindSpace(t, item.name);
    var es := t[i].entries;
    var added := Entry(if local then Local else Global, item.key, item.value);
    assert PutEntry(es, item.key, item.value, local, noDup) == es + [added];
    CountConcat(es, [added], k.1, states);
    assert [added][1..] == [];
    CopiesUpdate(t, i, t[i].(entries := es + [added]), k, states);
  }

  lemma PutReplaces(t: Table, item: Triple, k: Key, states: set<KeyState>)
    requires Holds(t, (item.name, item.key))
    ensures Copies(Put(t, item.name, item.key, item.value, false, false), k, states) == Copies(t, k, states)
  {
    var i := FindSpace(t, item.name);
    var es := t[i].entries;
    var j := FindKey(es, item.key);
    var e := es[j].(value := item.value);
    CountUpdate(es, j, e, k.1, states);
    CopiesUpdate(t, i, t[i].(entries := es[j := e]), k, states);
  }

  lemma CommitCopies(t: Table, k: Key, states: set<KeyState>)
    ensures Copies(CommitTable(t), k, states) == Copies(t, k, states)
  {
    forall s | 0 <= s < |t|
      ensures InSpace(CommitTable(t)[s], k, states) == InSpace(t[s], k, states)
    {
      CommitPartitions(t[s].entries);
      CountPermutes(t[s].entries, CommitTable(t)[s].entries, k.1, states);
    }
    CopiesAlike(CommitTable(t), t, k, states);
  }

  lemma {:induction false} DisabledCount(es: seq<Entry>, key: string)
    ensures Count(DisableEntries(es), key, GLOBALS) == Count(es, key, GLOBALS)
    ensures Count(DisableEntries(es), key, OWN) == Count(es, key, OWN)
    ensures Count(DisableEntries(es), key, LOCALS) == 0
  {
    if es != [] {
      DisabledCount(es[1..], key);
      assert DisableEntries(es)[1..] == DisableEntries(es[1..]);
    }
  }

  lemma {:induction false} NoCopies(t: Table, k: Key, states: set<KeyState>)
    requires forall s | 0 <= s < |t| :: InSpace(t[s], k, states) == 0
    ensures Copies(t, k, states) == 0
  {
    if t != [] {
      assert forall s | 0 <= s < |t| - 1 :: t[1..][s] == t[s + 1];
      NoCopies(t[1..], k, states);
    }
  }

  lemma DisabledCopies(t: Table, k: Key)
    ensures Copies(DisableLocal(t), k, GLOBALS) == Copies(t, k, GLOBALS)
    ensures Copies(DisableLocal(t), k, OWN) == Copies(t, k, OWN)
    ensures Copies(DisableLocal(t), k, LOCALS) == 0
  {
    forall s | 0 <= s < |t|
      ensures InSpace(DisableLocal(t)[s], k, GLOBALS) == InSpace(t[s], k, GLOBALS)
      ensures InSpace(DisableLocal(t)[s], k, OWN) == InSpace(t[s], k, OWN)
      ensures InSpace(DisableLocal(t)[s], k, LOCALS) == 0
    {
      DisabledCount(t[s].entries, k.1);
    }
    CopiesAlike(DisableLocal(t), t, k, GLOBALS);
    CopiesAlike(DisableLocal(t), t, k, OWN);
    NoCopies(DisableLocal(t), k, LOCALS);
  }

  predicate IsFor(item: Triple, k: Key) {
    (item.name, item.key) == k
  }

  function Times(items: seq<Triple>, k: Key): nat {
    if items == [] then 0 else (if IsFor(items[0], k) then 1 else 0) + Times(items[1..], k)
  }

  lemma {:induction false} TimesConcat(a: seq<Triple>, b: seq<Triple>, k: Key)
    ensures Times(a + b, k) == Times(a, k) + Times(b, k)
  {
    if a == [] {
      assert a + b == b;
    } else {
      TimesConcat(a[1..], b, k);
      assert (a + b)[1..] == a[1..] + b;
    }
  }

  /** Without a search for duplicates every pair of the reply becomes a copy. */
  lemma {:induction false} ReplyAppends(t: Table, reply: seq<Triple>, names: set<string>, k: Key, states: set<KeyState>)
    requires KnownNames(t, names) && forall j | 0 <= j < |reply| :: reply[j].name in names
    ensures Copies(PutAll(t, reply, true), k, states)
         == Copies(t, k, states) + if Global in states then Times(reply, k) else 0
    decreases |reply|
  {
    if reply != [] {
      var item := reply[0];
      var u := Put(t, item.name, item.key, item.value, false, true);
      PutAppends(t, item, false, true, k, states);
      PutKeeps(t, item.name, item.key, item.value, false, true);
      GrowthKeeps(t, u, names);
      ReplyAppends(u, reply[1..], names, k, states);
    }
  }

  lemma PutFillsIn(t: Table, item: Triple, names: set<string>, k: Key, states: set<KeyState>)
    requires KnownNames(t, names) && item.name in names
    ensures var u := Put(t, item.name, item.key, item.value, false, false);
            && KnownNames(u, names) && (Holds(u, k) <==> Holds(t, k) || IsFor(item, k))
            && Copies(u, k, states)
               == Copies(t, k, states) + if Global in states && !Holds(t, k) && IsFor(item, k) then 1 else 0
  {
    var u := Put(t, item.name, item.key, item.value, false, false);
    PutKeeps(t, item.name, item.key, item.value, false, false);
    GrowthKeeps(t, u, names);
    if Holds(t, (item.name, item.key)) {
      PutReplaces(t, item, k, states);
    } else {
      PutAppends(t, item, false, false, k, states);
    }
    if !IsFor(item, k) && Holds(u, k) { PutHolds(t, item.name, item.key, item.value, false, false, k); }
  }

  lemma InReplyFirst(reply: seq<Triple>, k: Key)
    requires reply != []
    ensures InReply(reply, k) <==> IsFor(reply[0], k) || InReply(reply[1..], k)
  {
    InReplyConcat([reply[0]], reply[1..], k);
    assert reply == [reply[0]] + reply[1..] && [reply[0]][0] == reply[0];
  }

  /** With a search, a pair of the reply becomes a copy only if the rank has none. */
  lemma {:induction false} ReplyFillsIn(t: Table, reply: seq<Triple>, names: set<string>, k: Key, states: set<KeyState>)
    requires KnownNames(t, names) && forall j | 0 <= j < |reply| :: reply[j].name in names
    ensures Copies(PutAll(t, reply, false), k, states)
         == Copies(t, k, states) + if Global in states && !Holds(t, k) && InReply(reply, k) then 1 else 0
    decreases |reply|
  {
    if reply != [] {
      var item := reply[0];
      PutFillsIn(t, item, names, k, states);
      InReplyFirst(reply, k);
      ReplyFillsIn(Put(t, item.name, item.key, item.value, false, false), reply[1..], names, k, states);
    }
  }

  lemma BarrierCopies(t: Table, reply: seq<Triple>, noDup: bool, names: set<string>, k: Key)
    requires KnownNames(t, names) && forall j | 0 <= j < |reply| :: reply[j].name in names
    ensures Copies(Barrier(t, reply, noDup), k, OWN) == Copies(t, k, OWN)
    ensures Copies(Barrier(t, reply, noDup), k, LOCALS) == 0
    ensures Copies(Barrier(t, reply, noDup), k, GLOBALS) == Copies(t, k, GLOBALS)
            + if noDup then Times(reply, k) else if !Holds(t, k) && InReply(reply, k) then 1 else 0
  {
    var u := DisableLocal(t);
    DisabledCopies(t, k);
    DisableKeeps(t, map[]);
    GrowthKeeps(t, u, names);
    if Holds(u, k) { DisableHolds(t, k); }
    if noDup {
      ReplyAppends(u, reply, names, k, OWN);
      ReplyAppends(u, reply, names, k, LOCALS);
      ReplyAppends(u, reply, names, k, GLOBALS);
    } else {
      ReplyFillsIn(u, reply, names, k, OWN);
      ReplyFillsIn(u, reply, names, k, LOCALS);
      ReplyFillsIn(u, reply, names, k, GLOBALS);
    }
  }

  // ---- what a commit sends ------------------------------------------------

  lemma {:induction false} TimesTagged(name: string, es: seq<Entry>, k: Key)
    ensures Times(Tagged(name, es), k) == if name == k.0 then Count(es, k.1, ANY) else 0
  {
    if es != [] {
      TimesTagged(name, es[1..], k);
      assert es[0].state.Global? || es[0].state.Local? || es[0].state.Disabled?;
      assert Tagged(name, es)[1..] == Tagged(name, es[1..]);
    }
  }

  lemma {:induction false} NonGlobalCount(es: seq<Entry>, key: string)
    ensures Count(NonGlobal(es), key, ANY) == Count(es, key, OWN)
  {
    if es != [] {
      NonGlobalCount(es[1..], key);
      if !es[0].state.Global? { assert NonGlobal(es)[1..] == NonGlobal(es[1..]); }
    }
  }

  /** A commit sends every copy that is not GLOBAL. */
  lemma {:induction false} TimesSent(t: Table, k: Key)
    requires forall i | 0 <= i < |t| :: !t[i].defunct
    ensures Times(Sent(t), k) == Copies(t, k, OWN)
  {
    if t != [] {
      assert forall i | 0 <= i < |t| - 1 :: t[1..][i] == t[i + 1];
      TimesSent(t[1..], k);
      TimesConcat(SentBy(t[0]), Sent(t[1..]), k);
      CommitPartitions(t[0].entries);
      TimesTagged(t[0].name, NonGlobal(t[0].entries), k);
      NonGlobalCount(t[0].entries, k.1);
    }
  }

  // ---- the server ---------------------------------------------------------

  /** Pairs of this key on the server, all or only those that were sent. */
  function Stock(server: seq<Stored>, k: Key, onlySent: bool): nat {
    if server == [] then 0
    else (if IsFor(server[0].item, k) && (onlySent ==> server[0].sent) then 1 else 0) + Stock(server[1..], k, onlySent)
  }

  lemma {:induction false} StockAppend(server: seq<Stored>, item: Triple, k: Key, onlySent: bool)
    ensures Stock(server + [Stored(item, false)], k, onlySent)
         == Stock(server, k, onlySent) + if IsFor(item, k) && !onlySent then 1 else 0
  {
    if server == [] {
      assert server + [Stored(item, false)] == [Stored(item, false)];
    } else {
      StockAppend(server[1..], item, k, onlySent);
      assert (server + [Stored(item, false)])[1..] == server[1..] + [Stored(item, false)];
    }
  }

  lemma {:induction false} StockMerged(server: seq<Stored>, items: seq<Triple>, k: Key, onlySent: bool)
    ensures Stock(Merge(server, items, true), k, onlySent)
         == Stock(server, k, onlySent) + if onlySent then 0 else Times(items, k)
    decreases |items|
  {
    if items != [] {
      StockAppend(server, items[0], k, onlySent);
      StockMerged(server + [Stored(items[0], false)], items[1..], k, onlySent);
    }
  }

  lemma {:induction false} StockReleased(server: seq<Stored>, k: Key)
    ensures Times(Unsent(server), k) + Stock(server, k, true) == Stock(server, k, false)
    ensures Stock(AllSent(server), k, true) == Stock(server, k, false)
    ensures Stock(AllSent(server), k, false) == Stock(server, k, false)
  {
    if server != [] {
      StockReleased(server[1..], k);
      var head := if server[0].sent then [] else [server[0].item];
      TimesConcat(head, Unsent(server[1..]), k);
      assert head != [] ==> head[1..] == [];
      assert AllSent(server)[1..] == AllSent(server[1..]);
    }
  }

  // ---- the copies at one rank ---------------------------------------------

  lemma NamesOfReply(w: World, names: set<string>, j: nat)
    requires Inv(w, names) && j < |w.reply|
    ensures w.reply[j].name in names
  {
    assert ItemAgrees(w.reply[j], w.log);
  }

  lemma LeaveCopies(w: World, names: set<string>, r: nat, k: Key)
    requires Inv(w, names) && Enabled(w, Leave(r), names)
    ensures var t, t' := w.ranks[r].table, Next(w, Leave(r), names).ranks[r].table;
            && Copies(t', k, OWN) == Copies(t, k, OWN) && Copies(t', k, LOCALS) == 0
            && Copies(t', k, GLOBALS) == Copies(t, k, GLOBALS)
               + if w.noDup then Times(w.reply, k) else if !Holds(t, k) && InReply(w.reply, k) then 1 else 0
  {
    assert RankInv(w.ranks[r], names, w.log);
    forall j | 0 <= j < |w.reply|
      ensures w.reply[j].name in names
    {
      NamesOfReply(w, names, j);
    }
    BarrierCopies(w.ranks[r].table, w.reply, w.noDup, names, k);
  }

  /** A rank puts only keys that it does not hold. */
  lemma PutIsNew(w: World, e: Event, names: set<string>)
    requires Inv(w, names) && Enabled(w, e, names) && e.PutKey?
    ensures var t := w.ranks[e.rank].table;
            !Holds(t, (e.name, e.key)) && FindSpace(t, e.name) < |t|
  {
    var t := w.ranks[e.rank].table;
    assert RankInv(w.ranks[e.rank], names, w.log);
    if Holds(t, (e.name, e.key)) {
      HeldKeysAreFound(t, names, w.log, (e.name, e.key));
    }
  }

  lemma PutCopies(w: World, e: Event, names: set<string>, k: Key)
    requires Inv(w, names) && Enabled(w, e, names) && e.PutKey?
    ensures var t, t' := w.ranks[e.rank].table, Next(w, e, names).ranks[e.rank].table;
            && Copies(t', k, OWN) == Copies(t, k, OWN) + (if k == (e.name, e.key) then 1 else 0)
            && Copies(t', k, GLOBALS) == Copies(t, k, GLOBALS)
  {
    PutIsNew(w, e, names);
    var item := Triple(e.name, e.key, e.value);
    PutAppends(w.ranks[e.rank].table, item, true, w.noDup, k, OWN);
    PutAppends(w.ranks[e.rank].table, item, true, w.noDup, k, GLOBALS);
  }

  predicate Owns(w: World, q: nat, k: Key) {
    k in w.log && w.log[k].rank == q
  }

  /** A rank has one copy that is not GLOBAL of what it put, and none of other keys. */
  ghost predicate OwnCopies(w: World, q: nat, k: Key) {
    q < |w.ranks| && Copies(w.ranks[q].table, k, OWN) == if Owns(w, q, k) then 1 else 0
  }

  lemma OwnStays(w: World, e: Event, names: set<string>, q: nat, k: Key)
    requires Inv(w, names) && Enabled(w, e, names) && q < |w.ranks| && !(e.PutKey? && e.rank == q)
    ensures Copies(Next(w, e, names).ranks[q].table, k, OWN) == Copies(w.ranks[q].table, k, OWN)
  {
    if e == Commit(q) {
      CommitCopies(w.ranks[q].table, k, OWN);
    } else if e == Leave(q) {
      LeaveCopies(w, names, q, k);
    }
  }

  lemma NextOwnCopies(w: World, e: Event, names: set<string>, q: nat, k: Key)
    requires Inv(w, names) && Enabled(w, e, names) && OwnCopies(w, q, k)
    ensures OwnCopies(Next(w, e, names), q, k)
  {
    if e.PutKey? && e.rank == q {
      PutCopies(w, e, names, k);
    } else {
      OwnStays(w, e, names, q, k);
    }
  }

  /** GLOBAL copies come with a barrier only. */
  lemma GlobalsStay(w: World, e: Event, names: set<string>, q: nat, k: Key)
    requires Inv(w, names) && Enabled(w, e, names) && q < |w.ranks| && e != Leave(q)
    ensures Copies(Next(w, e, names).ranks[q].table, k, GLOBALS) == Copies(w.ranks[q].table, k, GLOBALS)
  {
    if e.PutKey? {
      PutCopies(w, e, names, k);
    } else if e.Commit? {
      CommitCopies(w.ranks[e.rank].table, k, GLOBALS);
    }
  }

  // ---- without a search for duplicates ------------------------------------

  /** A rank has a GLOBAL copy for every time the key was sent, up to the reply. */
  ghost predicate SentCopies(w: World, q: nat, k: Key) {
    && q < |w.ranks|
    && Copies(w.ranks[q].table, k, GLOBALS) + (if w.ranks[q].phase.Released? then Times(w.reply, k) else 0)
       == Stock(w.server, k, true)
  }

  lemma NextSentCopies(w: World, e: Event, names: set<string>, q: nat, k: Key)
    requires Inv(w, names) && Enabled(w, e, names) && w.noDup && SentCopies(w, q, k)
    ensures SentCopies(Next(w, e, names), q, k)
  {
    if e == Leave(q) {
      LeaveCopies(w, names, q, k);
    } else {
      GlobalsStay(w, e, names, q, k);
      SentStays(w, e, names, q, k);
    }
  }

  lemma SentStays(w: World, e: Event, names: set<string>, q: nat, k: Key)
    requires Enabled(w, e, names) && w.noDup && q < |w.ranks| && e != Leave(q)
    ensures var w' := Next(w, e, names);
            Stock(w'.server, k, true) - (if w'.ranks[q].phase.Released? then Times(w'.reply, k) else 0)
            == Stock(w.server, k, true) - (if w.ranks[q].phase.Released? then Times(w.reply, k) else 0)
  {
    if e.Commit? {
      StockMerged(w.server, Sent(w.ranks[e.rank].table), k, true);
    } else if e.Release? {
      assert w.ranks[q].phase.Waiting?;
      StockReleased(w.server, k);
    }
  }

  /** What a run has done with a key: who put it, how often that rank has committed
      since, and how often it had when the last barrier was released. */
  datatype Tally = Tally(owner: Option<nat>, commits: nat, released: nat)

  function Tallied(tl: Tally, e: Event, k: Key): Tally {
    match e
    case PutKey(r, name, key, _) => if (name, key) == k then tl.(owner := Some(r)) else tl
    case Commit(r) => if tl.owner == Some(r) then tl.(commits := tl.commits + 1) else tl
    case Enter(_) => tl
    case Release => tl.(released := tl.commits)
    case Leave(_) => tl
  }

  function TallyFrom(tl: Tally, es: seq<Event>, k: Key): Tally
    decreases |es|
  {
    if es == [] then tl else TallyFrom(Tallied(tl, es[0], k), es[1..], k)
  }

  function TallyOf(es: seq<Event>, k: Key): Tally {
    TallyFrom(Tally(None, 0, 0), es, k)
  }

  ghost predicate TallyInv(w: World, tl: Tally, k: Key) {
    && tl.owner == (if k in w.log then Some(w.log[k].rank) else None)
    && (k !in w.log ==> tl.commits == 0) && (k !in w.published ==> tl.released == 0)
    && (w.noDup ==> Stock(w.server, k, false) == tl.commits && Stock(w.server, k, true) == tl.released)
  }

  lemma CommitStock(w: World, names: set<string>, r: nat, k: Key)
    requires Enabled(w, Commit(r), names) && w.noDup && KnownNames(w.ranks[r].table, names) && OwnCopies(w, r, k)
    ensures var server := Next(w, Commit(r), names).server;
            && Stock(server, k, false) == Stock(w.server, k, false) + (if Owns(w, r, k) then 1 else 0)
            && Stock(server, k, true) == Stock(w.server, k, true)
  {
    var t := w.ranks[r].table;
    TimesSent(t, k);
    StockMerged(w.server, Sent(t), k, false);
    StockMerged(w.server, Sent(t), k, true);
  }

  lemma NextTally(w: World, e: Event, names: set<string>, tl: Tally, k: Key)
    requires Inv(w, names) && Enabled(w, e, names) && TallyInv(w, tl, k)
    requires e.Commit? ==> OwnCopies(w, e.rank, k)
    ensures TallyInv(Next(w, e, names), Tallied(tl, e, k), k)
  {
    if e.Commit? && w.noDup {
      assert RankInv(w.ranks[e.rank], names, w.log);
      CommitStock(w, names, e.rank, k);
    } else if e.Release? {
      StockReleased(w.server, k);
    }
  }

  // ---- with a search for duplicates ---------------------------------------

  /** A rank has one GLOBAL copy of what it sees and did not put, and none of others. */
  ghost predicate SeenCopies(w: World, q: nat, k: Key) {
    && q < |w.ranks|
    && Copies(w.ranks[q].table, k, GLOBALS) == if k in Visible(w, q) && !Owns(w, q, k) then 1 else 0
  }

  lemma HeldIff(w: World, names: set<string>, q: nat, k: Key)
    requires Inv(w, names) && HeldInv(w) && q < |w.ranks|
    ensures Holds(w.ranks[q].table, k) <==> k in Visible(w, q)
  {
    assert RankInv(w.ranks[q], names, w.log);
  }

  lemma LeaveSeen(w: World, names: set<string>, q: nat, k: Key)
    requires Inv(w, names) && ViewInv(w) && HeldInv(w) && Enabled(w, Leave(q), names) && !w.noDup
    requires SeenCopies(w, q, k)
    ensures SeenCopies(Next(w, Leave(q), names), q, k)
  {
    var w' := Next(w, Leave(q), names);
    LeaveCopies(w, names, q, k);
    HeldIff(w, names, q, k);
    NextInv(w, Leave(q), names);
    NextHeldInv(w, Leave(q), names);
    HeldIff(w', names, q, k);
    if Holds(w.ranks[q].table, k) {
      NextKeepsKey(w, Leave(q), names, q, k);
    } else if InReply(w.reply, k) {
      assert k in w.published && k in w'.ranks[q].view && k in w'.log;
    } else if Holds(w'.ranks[q].table, k) {
      NewlyHeld(w, Leave(q), names, q, k);
    }
  }

  lemma SeenStays(w: World, e: Event, names: set<string>, q: nat, k: Key)
    requires ViewInv(w) && Enabled(w, e, names) && q < |w.ranks| && e != Leave(q)
    ensures var w' := Next(w, e, names);
            k in Visible(w', q) && !Owns(w', q, k) <==> k in Visible(w, q) && !Owns(w, q, k)
  {
  }

  lemma NextSeenCopies(w: World, e: Event, names: set<string>, q: nat, k: Key)
    requires Inv(w, names) && ViewInv(w) && HeldInv(w) && Enabled(w, e, names) && !w.noDup && SeenCopies(w, q, k)
    ensures SeenCopies(Next(w, e, names), q, k)
  {
    if e == Leave(q) {
      LeaveSeen(w, names, q, k);
    } else {
      GlobalsStay(w, e, names, q, k);
      SeenStays(w, e, names, q, k);
    }
  }

  // ---- whole runs ---------------------------------------------------------

  ghost predicate CopiesInv(w: World, tl: Tally, k: Key) {
    && TallyInv(w, tl, k)
    && (forall q | 0 <= q < |w.ranks| :: OwnCopies(w, q, k))
    && (forall q | 0 <= q < |w.ranks| :: if w.noDup then SentCopies(w, q, k) else SeenCopies(w, q, k))
  }

  lemma NextCopiesInv(w: World, e: Event, names: set<string>, tl: Tally, k: Key)
    requires Inv(w, names) && ViewInv(w) && HeldInv(w) && Enabled(w, e, names) && CopiesInv(w, tl, k)
    ensures CopiesInv(Next(w, e, names), Tallied(tl, e, k), k)
  {
    NextTally(w, e, names, tl, k);
    forall q | 0 <= q < |w.ranks|
      ensures OwnCopies(Next(w, e, names), q, k)
      ensures if w.noDup then SentCopies(Next(w, e, names), q, k) else SeenCopies(Next(w, e, names), q, k)
    {
      NextOwnCopies(w, e, names, q, k);
      if w.noDup { NextSentCopies(w, e, names, q, k); } else { NextSeenCopies(w, e, names, q, k); }
    }
  }

  lemma {:induction false} RunCopiesInv(w: World, es: seq<Event>, names: set<string>, tl: Tally, k: Key)
    requires Inv(w, names) && ViewInv(w) && HeldInv(w) && CanRun(w, es, names) && CopiesInv(w, tl, k)
    ensures CopiesInv(Run(w, es, names), TallyFrom(tl, es, k), k)
    ensures Run(w, es, names).noDup == w.noDup
    decreases |es|
  {
    if es != [] {
      NextInv(w, es[0], names);
      NextLater(w, es[0], names);
      NextHeldInv(w, es[0], names);
      NextCopiesInv(w, es[0], names, tl, k);
      RunCopiesInv(Next(w, es[0], names), es[1..], names, Tallied(tl, es[0], k), k);
    }
  }

  lemma InitialCopiesInv(w: World, names: set<string>, k: Key)
    requires Initial(w, names)
    ensures CopiesInv(w, Tally(None, 0, 0), k)
  {
    forall q | 0 <= q < |w.ranks|
      ensures Copies(w.ranks[q].table, k, OWN) == 0 && Copies(w.ranks[q].table, k, GLOBALS) == 0
    {
      forall s | 0 <= s < |w.ranks[q].table|
        ensures InSpace(w.ranks[q].table[s], k, OWN) == 0 && InSpace(w.ranks[q].table[s], k, GLOBALS) == 0
      {
        assert w.ranks[q].table[s].entries == [];
      }
      NoCopies(w.ranks[q].table, k, OWN);
      NoCopies(w.ranks[q].table, k, GLOBALS);
    }
  }

  lemma {:induction false} EnabledSplit(t: Table, k: Key)
    ensures Copies(t, k, ENABLED) == Copies(t, k, LOCALS) + Copies(t, k, GLOBALS)
  {
    if t != [] {
      EnabledSplit(t[1..], k);
      EnabledEntries(t[0].entries, k.1);
    }
  }

  lemma {:induction false} EnabledEntries(es: seq<Entry>, key: string)
    ensures Count(es, key, ENABLED) == Count(es, key, LOCALS) + Count(es, key, GLOBALS)
  {
    if es != [] { EnabledEntries(es[1..], key); }
  }

  /** When a rank leaves a barrier it has this many copies of a key for an iteration
      to return: without a search for duplicates, one for every commit of the rank
      that put it, from the put to the release of the barrier; with a search, one of
      what others had put before the release, and none of its own. */
  lemma CopiesAfterBarrier(w0: World, es: seq<Event>, names: set<string>, r: nat, k: Key)
    requires Initial(w0, names) && CanDo(w0, es, Leave(r), names)
    ensures var w := After(w0, es, Leave(r), names);
            && w.noDup == w0.noDup && (if k in w.published then k in w.log else TallyOf(es, k).released == 0)
            && Copies(w.ranks[r].table, k, ENABLED)
               == if w.noDup then TallyOf(es, k).released
                  else if k in w.published && w.log[k].rank != r then 1 else 0
  {
    var w1, w := Run(w0, es, names), After(w0, es, Leave(r), names);
    InitialInv(w0, names);
    InitialHeldInv(w0, names);
    InitialCopiesInv(w0, names, k);
    RunInv(w0, es, names);
    RunHeldInv(w0, es, names);
    RunCopiesInv(w0, es, names, Tally(None, 0, 0), k);
    NextCopiesInv(w1, Leave(r), names, TallyOf(es, k), k);
    LeaveCopies(w1, names, r, k);
    EnabledSplit(w.ranks[r].table, k);
    assert OwnCopies(w, r, k);
    assert if w.noDup then SentCopies(w, r, k) else SeenCopies(w, r, k);
  }

  /** So an iteration after a barrier returns every published key once, and no others,
      if and only if - without a search for duplicates - the rank that put a key
      committed exactly once from the put to the release, or - with a search - this
      rank put none of them itself. */
  lemma EachKeyOnceIff(w0: World, es: seq<Event>, names: set<string>, r: nat)
    requires Initial(w0, names) && CanDo(w0, es, Leave(r), names)
    ensures var w := After(w0, es, Leave(r), names);
            && (forall k | k in w.published :: k in w.log)
            && (forall k: Key | k !in w.published :: Copies(w.ranks[r].table, k, ENABLED) == 0)
            && ((forall k | k in w.published :: Copies(w.ranks[r].table, k, ENABLED) == 1)
                <==> if w.noDup then forall k | k in w.published :: TallyOf(es, k).released == 1
                     else forall k | k in w.published :: w.log[k].rank != r)
  {
    var w := After(w0, es, Leave(r), names);
    forall k: Key
      ensures if k in w.published then k in w.log else Copies(w.ranks[r].table, k, ENABLED) == 0
      ensures k in w.published ==> (Copies(w.ranks[r].table, k, ENABLED) == 1
                                    <==> if w.noDup then TallyOf(es, k).released == 1 else w.log[k].rank != r)
    {
      CopiesAfterBarrier(w0, es, names, r, k);
    }
  }

  // ---- what the iterator returns ------------------------------------------

  function KeyTimes(pairs: seq<(string, string)>, key: string): nat {
    if pairs == [] then 0 else (if pairs[0].0 == key then 1 else 0) + KeyTimes(pairs[1..], key)
  }

  lemma {:induction false} KeyTimesAppend(pairs: seq<(string, string)>, p: (string, string), key: string)
    ensures KeyTimes(pairs + [p], key) == KeyTimes(pairs, key) + if p.0 == key then 1 else 0
  {
    if pairs == [] {
      assert pairs + [p] == [p] && [p][1..] == [];
    } else {
      KeyTimesAppend(pairs[1..], p, key);
      assert (pairs + [p])[1..] == pairs[1..] + [p];
    }
  }

  lemma {:induction false} IterationCounts(r: KvsProcess.Rec, n: nat, key: string)
    requires r.Valid() && n <= |r.keys|
    ensures KeyTimes(KvsIterator.EnabledPairs(r, n), key) == Count(r.Entries()[..n], key, ENABLED)
    decreases n
  {
    if n > 0 {
      IterationCounts(r, n - 1, key);
      var pairs, e := KvsIterator.EnabledPairs(r, n - 1), r.Entries()[n - 1];
      assert r.Entries()[..n] == r.Entries()[..n - 1] + [e];
      CountConcat(r.Entries()[..n - 1], [e], key, ENABLED);
      assert [e][1..] == [];
      KeyTimesAppend(pairs, (r.keys[n - 1], r.values[n - 1]), key);
      assert pairs + [] == pairs;
      assert e.state in ENABLED <==> !r.states[n - 1].Disabled?;
    }
  }

  lemma {:induction false} OnlyRecordCounts(t: Table, i: nat, k: Key, states: set<KeyState>)
    requires i < |t| && forall s | 0 <= s < |t| :: t[s].name == k.0 <==> s == i
    ensures Copies(t, k, states) == Count(t[i].entries, k.1, states)
  {
    var rest := t[i := t[i].(entries := [])];
    CopiesUpdate(t, i, t[i].(entries := []), k, states);
    NoCopies(rest, k, states);
  }

  /** The records of a process hold the table of rank r, and i is the only one of
      this name. */
  ghost predicate RecordsOf(recs: seq<KvsProcess.Rec>, t: Table, name: string, i: nat) {
    KvsProcess.AllValid(recs) && KvsProcess.TableOf(recs) == t && KvsIterator.OnlyLive(recs, name, i)
  }

  lemma OnlyLiveIsOnly(recs: seq<KvsProcess.Rec>, t: Table, names: set<string>, name: string, i: nat)
    requires RecordsOf(recs, t, name, i) && KnownNames(t, names)
    ensures forall s | 0 <= s < |t| :: t[s].name == name <==> s == i
  {
    forall s | 0 <= s < |t|
      ensures t[s].name == name <==> s == i
    {
      assert t[s] == recs[s].View() && !t[s].defunct;
    }
  }

  /** How often the pairs that an iteration is meant to return hold a key. */
  lemma IterationAfterBarrier(w0: World, es: seq<Event>, names: set<string>, r: nat,
                              recs: seq<KvsProcess.Rec>, i: nat, k: Key)
    requires Initial(w0, names) && CanDo(w0, es, Leave(r), names)
    requires RecordsOf(recs, After(w0, es, Leave(r), names).ranks[r].table, k.0, i)
    ensures var w := After(w0, es, Leave(r), names);
            && (k in w.published ==> k in w.log)
            && KeyTimes(KvsIterator.EnabledPairs(recs[i], |recs[i].keys|), k.1)
               == if w.noDup then TallyOf(es, k).released
                  else if k in w.published && w.log[k].rank != r then 1 else 0
  {
    var w1, w := Run(w0, es, names), After(w0, es, Leave(r), names);
    CopiesAfterBarrier(w0, es, names, r, k);
    InitialInv(w0, names);
    RunInv(w0, es, names);
    NextInv(w1, Leave(r), names);
    assert RankInv(w.ranks[r], names, w.log);
    OnlyLiveIsOnly(recs, w.ranks[r].table, names, k.0, i);
    OnlyRecordCounts(w.ranks[r].table, i, k, ENABLED);
    IterationCounts(recs[i], |recs[i].keys|, k.1);
    assert recs[i].Entries()[..|recs[i].keys|] == recs[i].Entries();
  }

  lemma {:induction false} ReturnedCounts(r: KvsProcess.Rec, n: nat, j: nat)
    requires r.Valid() && j < n <= |r.keys| && !r.states[j].Disabled?
    ensures KeyTimes(KvsIterator.EnabledPairs(r, n), r.keys[j]) >= 1
  {
    IterationCounts(r, n, r.keys[j]);
    CountAround(r.Entries()[..n], j, r.keys[j], ENABLED);
    assert r.Entries()[..n][j].state in ENABLED;
  }

  /** With a search for duplicates, a rank that put all published keys of a name
      itself has nothing left to iterate over: every pair is DISABLED, and
      Iter_first reads behind the arrays unless the record comes too late. */
  lemma OwnKeysLeaveRecord(w0: World, es: seq<Event>, names: set<string>, r: nat,
                           recs: seq<KvsProcess.Rec>, i: nat, name: string)
    requires Initial(w0, names) && CanDo(w0, es, Leave(r), names) && !w0.noDup
    requires RecordsOf(recs, After(w0, es, Leave(r), names).ranks[r].table, name, i)
    requires var w := After(w0, es, Leave(r), names);
             forall k | k in w.published && k.0 == name :: k in w.log && w.log[k].rank == r
    ensures KvsIterator.AllDisabled(recs[i])
    ensures KvsIterator.FirstFrom(recs, name, 0).0.LeftRecord? <==> i < |recs[i].keys|
  {
    forall j | 0 <= j < |recs[i].states|
      ensures recs[i].states[j].Disabled?
    {
      CopiesAfterBarrier(w0, es, names, r, (name, recs[i].keys[j]));
      IterationAfterBarrier(w0, es, names, r, recs, i, (name, recs[i].keys[j]));
      if !recs[i].states[j].Disabled? { ReturnedCounts(recs[i], |recs[i].keys|, j); }
    }
    KvsIterator.OnlyLiveRecord(recs, name, i);
    KvsIterator.DisabledIff(recs[i]);
  }

  // ---- a process on its own -----------------------------------------------

  /** One put and the reply that brings it back: the only pair is DISABLED, and
      Iter_first leaves the record. */
  lemma OwnPutIsDisabled(recs: seq<KvsProcess.Rec>)
    requires KvsProcess.AllValid(recs)
    requires KvsProcess.TableOf(recs)
          == Barrier(Put([Space("a", false, [])], "a", "k", "v", true, false), [Triple("a", "k", "v")], false)
    ensures KvsProcess.TableOf(recs) == [Space("a", false, [Entry(Disabled, "k", "v")])]
    ensures KvsIterator.FirstFrom(recs, "a", 0).0.LeftRecord?
  {
    var empty, item := Space("a", false, []), Entry(Local, "k", "v");
    assert FindSpace([empty], "a") == 0 && PutEntry([], "k", "v", true, false) == [item];
    var t := Put([empty], "a", "k", "v", true, false);
    assert t == [Space("a", false, [item])];
    var u := DisableLocal(t);
    var own := Entry(Disabled, "k", "v");
    assert DisableEntries([item]) == [own];
    assert u == [Space("a", false, [own])];
    assert FindSpace(u, "a") == 0 && FindKey([own], "k") == 0 && PutEntry([own], "k", "v", false, false) == [own];
    assert Put(u, "a", "k", "v", false, false) == u;
    assert [Triple("a", "k", "v")][1..] == [];
    assert Barrier(t, [Triple("a", "k", "v")], false) == u;
    assert recs[0].View() == u[0] && recs[0].Entries()[0] == Entry(Disabled, "k", "v");
  }

  /** One rank that puts, commits twice and goes through a barrier. */
  const TWICE: seq<Event> := [PutKey(0, "a", "k", "v"), Commit(0), Commit(0), Enter(0), Release]

  lemma CanCommitTwice(w0: World)
    requires Initial(w0, {"a"}) && |w0.ranks| == 1
    ensures CanDo(w0, TWICE, Leave(0), {"a"}) && ("a", "k") in After(w0, TWICE, Leave(0), {"a"}).published
  {
    var names := {"a"};
    var w1 := Next(w0, TWICE[0], names);
    var w2 := Next(w1, TWICE[1], names);
    var w3 := Next(w2, TWICE[2], names);
    var w4 := Next(w3, TWICE[3], names);
    var w5 := Next(w4, TWICE[4], names);
    assert CanRun(w5, TWICE[5..], names) && Run(w5, TWICE[5..], names) == w5;
    assert TWICE[4..][1..] == TWICE[5..] && TWICE[3..][1..] == TWICE[4..];
    assert CanRun(w4, TWICE[4..], names) && Run(w4, TWICE[4..], names) == w5;
    assert CanRun(w3, TWICE[3..], names) && Run(w3, TWICE[3..], names) == w5;
    assert TWICE[2..][1..] == TWICE[3..] && TWICE[1..][1..] == TWICE[2..];
    assert CanRun(w2, TWICE[2..], names) && Run(w2, TWICE[2..], names) == w5;
    assert CanRun(w1, TWICE[1..], names) && Run(w1, TWICE[1..], names) == w5;
    assert CanRun(w0, TWICE, names) && Run(w0, TWICE, names) == w5;
  }

  lemma TwiceTally()
    ensures TallyOf(TWICE, ("a", "k")).released == 2
  {
    var k, tl := ("a", "k"), Tally(Some(0), 2, 2);
    assert TWICE[1..] == [Commit(0), Commit(0), Enter(0), Release];
    assert TWICE[1..][1..] == [Commit(0), Enter(0), Release];
    assert [Commit(0), Enter(0), Release][1..] == [Enter(0), Release];
    assert [Enter(0), Release][1..] == [Release] && [Release][1..] == [];
    assert TallyFrom(Tally(Some(0), 2, 0), [Enter(0), Release], k) == TallyFrom(tl, [], k);
    assert TallyFrom(Tally(Some(0), 1, 0), [Commit(0), Enter(0), Release], k) == tl;
    assert TallyFrom(Tally(Some(0), 0, 0), TWICE[1..], k) == tl;
  }

  /** Committing twice gives two copies of the key without a search for duplicates;
      with a search there is none. */
  lemma SecondCommitDuplicates(w0: World)
    requires Initial(w0, {"a"}) && |w0.ranks| == 1
    ensures CanDo(w0, TWICE, Leave(0), {"a"})
    ensures Copies(After(w0, TWICE, Leave(0), {"a"}).ranks[0].table, ("a", "k"), ENABLED) == if w0.noDup then 2 else 0
  {
    CanCommitTwice(w0);
    TwiceTally();
    CopiesAfterBarrier(w0, TWICE, {"a"}, 0, ("a", "k"));
    var w := After(w0, TWICE, Leave(0), {"a"});
    InitialInv(w0, {"a"});
    RunInv(w0, TWICE, {"a"});
    NextInv(Run(w0, TWICE, {"a"}), Leave(0), {"a"});
    assert LogInv(w, {"a"}) && w.log[("a", "k")].rank < |w.ranks|;
  }
}
