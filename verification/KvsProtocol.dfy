/** Several ranks that share key-value spaces through the server of
    src/api/pmi_server.c: put, commit, and a barrier that no rank leaves before
    all have entered.  The server keeps a list of pairs with a sent flag, and at
    a barrier transmits only the pairs it has not sent before. */
module KvsProtocol {
  import opened Kvs

  datatype Stored = Stored(item: Triple, sent: bool)

  datatype Phase = Running | Waiting | Released

  type Key = (string, string)

  /** A put as the history records it. */
  datatype Origin = Origin(rank: nat, value: string)

  /** `dirty` says that a put has not been committed yet; `view` is history: what
      was put by anyone before the last barrier that this rank left. */
  datatype Rank = Rank(table: Table, phase: Phase, dirty: bool, view: map<Key, Origin>)

  /** `log` and `published` are history: all puts, and those before the last
      barrier was released. */
  datatype World = World(noDup: bool, ranks: seq<Rank>, server: seq<Stored>, reply: seq<Triple>,
                         log: map<Key, Origin>, published: map<Key, Origin>)

  datatype Event =
    | PutKey(rank: nat, name: string, key: string, value: string)
    | Commit(rank: nat)
    | Enter(rank: nat)
    | Release
    | Leave(rank: nat)

  // ---- the server ---------------------------------------------------------

  predicate SameKey(a: Triple, b: Triple) {
    a.name == b.name && a.key == b.key
  }

  function FindStored(server: seq<Stored>, item: Triple): (j: nat)
    ensures j <= |server| && (j < |server| ==> SameKey(server[j].item, item))
    ensures forall k | 0 <= k < j :: !SameKey(server[k].item, item)
  {
    if server == [] || SameKey(server[0].item, item) then 0
    else
      assert forall k | 1 <= k < |server| :: server[k] == server[1..][k - 1];
      1 + FindStored(server[1..], item)
  }

  /** _merge_named_kvs for one pair. */
  function MergeOne(server: seq<Stored>, item: Triple, noDup: bool): seq<Stored> {
    var j := if noDup then |server| else FindStored(server, item);
    if j < |server| then server[j := Stored(server[j].item.(value := item.value), false)]
    else server + [Stored(item, false)]
  }

  /** pmi_kvs_put. */
  function Merge(server: seq<Stored>, items: seq<Triple>, noDup: bool): seq<Stored>
    decreases |items|
  {
    if items == [] then server else Merge(MergeOne(server, items[0], noDup), items[1..], noDup)
  }

  /** The pairs that _kvs_comm_dup copies for transmission ... */
  function Unsent(server: seq<Stored>): seq<Triple> {
    if server == [] then []
    else (if server[0].sent then [] else [server[0].item]) + Unsent(server[1..])
  }

  /** ... and the flags it sets. */
  function AllSent(server: seq<Stored>): (r: seq<Stored>)
    ensures |r| == |server|
  {
    seq(|server|, i requires 0 <= i < |server| => server[i].(sent := true))
  }

  /** A committed pair takes the place of the first one with its key, or is appended if
      there is none or duplicates are not searched for; it is to be sent either way. */
  lemma MergeOneIs(server: seq<Stored>, item: Triple, noDup: bool)
    ensures noDup || (forall j | 0 <= j < |server| :: !SameKey(server[j].item, item)) ==>
              MergeOne(server, item, noDup) == server + [Stored(item, false)]
    ensures forall j | 0 <= j < |server| && !noDup && SameKey(server[j].item, item)
                       && (forall k | 0 <= k < j :: !SameKey(server[k].item, item)) ::
              MergeOne(server, item, noDup) == server[j := Stored(item, false)]
  {
    forall j | 0 <= j < |server| && SameKey(server[j].item, item)
               && (forall k | 0 <= k < j :: !SameKey(server[k].item, item))
      ensures FindStored(server, item) == j
    {
      assert !(FindStored(server, item) < j);
      assert !(FindStored(server, item) > j);
    }
  }

  /** The positions of the pairs that have not been sent. */
  function UnsentPositions(server: seq<Stored>): (ps: seq<nat>)
    ensures forall i | 0 <= i < |ps| :: ps[i] < |server|
  {
    if server == [] then []
    else
      var front := server[..|server| - 1];
      UnsentPositions(front) + if server[|server| - 1].sent then [] else [|server| - 1]
  }

  lemma {:induction false} UnsentAppend(server: seq<Stored>, s: Stored)
    ensures Unsent(server + [s]) == Unsent(server) + if s.sent then [] else [s.item]
  {
    if server == [] {
      assert server + [s] == [s] && [s][1..] == [];
    } else {
      UnsentAppend(server[1..], s);
      assert (server + [s])[1..] == server[1..] + [s];
    }
  }

  /** All of them, in ascending order, and no others. */
  lemma {:induction false} UnsentPositionsAre(server: seq<Stored>)
    ensures var ps := UnsentPositions(server);
            && (forall i, j | 0 <= i < j < |ps| :: ps[i] < ps[j])
            && (forall i | 0 <= i < |ps| :: !server[ps[i]].sent)
            && forall p | 0 <= p < |server| && !server[p].sent :: p in ps
  {
    if server != [] {
      var front := server[..|server| - 1];
      UnsentPositionsAre(front);
      assert server == front + [server[|server| - 1]];
      UnsentPositionsAppend(front, server[|server| - 1]);
      hide UnsentPositions;
      assert forall p | 0 <= p < |front| && !server[p].sent :: p in UnsentPositions(front);
    }
  }

  lemma UnsentPositionsAppend(server: seq<Stored>, s: Stored)
    ensures UnsentPositions(server + [s]) == UnsentPositions(server) + if s.sent then [] else [|server|]
  {
    assert (server + [s])[..|server|] == server;
  }

  /** A barrier transmits exactly the pairs that were not sent before, in their order. */
  lemma {:induction false} UnsentIs(server: seq<Stored>)
    ensures |Unsent(server)| == |UnsentPositions(server)|
    ensures forall i | 0 <= i < |Unsent(server)| :: Unsent(server)[i] == server[UnsentPositions(server)[i]].item
  {
    if server != [] {
      hide Unsent, UnsentPositions;
      var front, last := server[..|server| - 1], server[|server| - 1];
      UnsentIs(front);
      UnsentAppend(front, last);
      UnsentPositionsAppend(front, last);
      assert server == front + [last];
    }
  }

  // ---- runs ---------------------------------------------------------------

  predicate KnownNames(t: Table, names: set<string>) {
    && (forall n | n in names :: FindSpace(t, n) < |t|)
    && (forall i | 0 <= i < |t| :: t[i].name in names && !t[i].defunct)
  }

  /** Every rank has a record of every name, none is defunct, and all are empty. */
  predicate Initial(w: World, names: set<string>) {
    && w.server == [] && w.reply == [] && w.log == map[] && w.published == map[]
    && forall r | 0 <= r < |w.ranks| ::
         && w.ranks[r].phase.Running? && !w.ranks[r].dirty && w.ranks[r].view == map[]
         && KnownNames(w.ranks[r].table, names)
         && forall i | 0 <= i < |w.ranks[r].table| :: w.ranks[r].table[i].entries == []
  }

  predicate Enabled(w: World, e: Event, names: set<string>) {
    match e
    case PutKey(r, name, key, _) => r < |w.ranks| && w.ranks[r].phase.Running? && name in names && (name, key) !in w.log
    case Commit(r) => r < |w.ranks| && w.ranks[r].phase.Running?
    case Enter(r) => r < |w.ranks| && w.ranks[r].phase.Running? && !w.ranks[r].dirty
    case Release => forall r | 0 <= r < |w.ranks| :: w.ranks[r].phase.Waiting?
    case Leave(r) => r < |w.ranks| && w.ranks[r].phase.Released?
  }

  function ReleaseRanks(ranks: seq<Rank>): (r: seq<Rank>)
    ensures |r| == |ranks|
  {
    seq(|ranks|, i requires 0 <= i < |ranks| => ranks[i].(phase := Released))
  }

  function Next(w: World, e: Event, names: set<string>): (w': World)
    requires Enabled(w, e, names)
    ensures |w'.ranks| == |w.ranks|
  {
    match e
    case PutKey(r, name, key, value) =>
      var rank := w.ranks[r];
      w.(ranks := w.ranks[r := rank.(table := Put(rank.table, name, key, value, true, w.noDup), dirty := true)],
         log := w.log[(name, key) := Origin(r, value)])
    case Commit(r) =>
      var rank := w.ranks[r];
      w.(ranks := w.ranks[r := rank.(table := CommitTable(rank.table), dirty := false)],
         server := Merge(w.server, Sent(rank.table), w.noDup))
    case Enter(r) =>
      w.(ranks := w.ranks[r := w.ranks[r].(phase := Waiting)])
    case Release =>
      w.(ranks := ReleaseRanks(w.ranks), reply := Unsent(w.server), server := AllSent(w.server), published := w.log)
    case Leave(r) =>
      var rank := w.ranks[r];
      var table := Barrier(rank.table, w.reply, w.noDup);
      w.(ranks := w.ranks[r := rank.(table := table, phase := Running, view := w.published)])
  }

  /** The events can happen one after the other. */
  predicate CanRun(w: World, es: seq<Event>, names: set<string>)
    decreases |es|
  {
    es == [] || (Enabled(w, es[0], names) && CanRun(Next(w, es[0], names), es[1..], names))
  }

  function Run(w: World, es: seq<Event>, names: set<string>): (w': World)
    requires CanRun(w, es, names)
    ensures |w'.ranks| == |w.ranks|
    decreases |es|
  {
    if es == [] then w else Run(Next(w, es[0], names), es[1..], names)
  }

  /** The events, and then this one, can happen. */
  predicate CanDo(w: World, es: seq<Event>, e: Event, names: set<string>) {
    CanRun(w, es, names) && Enabled(Run(w, es, names), e, names)
  }

  function After(w: World, es: seq<Event>, e: Event, names: set<string>): (w': World)
    requires CanDo(w, es, e, names)
    ensures |w'.ranks| == |w.ranks|
  {
    Next(Run(w, es, names), e, names)
  }

  // ---- what a table holds -------------------------------------------------

  ghost predicate HasKey(es: seq<Entry>, key: string) {
    exists i | 0 <= i < |es| :: es[i].key == key
  }

  /** Some copy of the key is in the record that puts and gets use. */
  ghost predicate Holds(t: Table, k: Key) {
    FindSpace(t, k.0) < |t| && HasKey(t[FindSpace(t, k.0)].entries, k.1)
  }

  /** Every copy of every key is the value that was put for it. */
  ghost predicate Agrees(name: string, es: seq<Entry>, log: map<Key, Origin>) {
    forall i | 0 <= i < |es| :: (name, es[i].key) in log && log[(name, es[i].key)].value == es[i].value
  }

  ghost predicate TableAgrees(t: Table, log: map<Key, Origin>) {
    forall s | 0 <= s < |t| :: Agrees(t[s].name, t[s].entries, log)
  }

  ghost predicate ItemAgrees(item: Triple, log: map<Key, Origin>) {
    (item.name, item.key) in log && log[(item.name, item.key)].value == item.value
  }

  ghost predicate InServer(server: seq<Stored>, k: Key) {
    exists j | 0 <= j < |server| :: (server[j].item.name, server[j].item.key) == k
  }

  ghost predicate InReply(reply: seq<Triple>, k: Key) {
    exists j | 0 <= j < |reply| :: (reply[j].name, reply[j].key) == k
  }

  /** The local arrays refine a map: with agreeing copies, a key that is held at
      all is found with the value that was put. */
  lemma HeldKeysAreFound(t: Table, names: set<string>, log: map<Key, Origin>, k: Key)
    requires KnownNames(t, names) && TableAgrees(t, log) && Holds(t, k)
    ensures k in log && Get(t, k.0, k.1) == Found(log[k].value)
  {
    LiveIsFirst(t, k.0);
    var s := FindSpace(t, k.0);
    var es := t[s].entries;
    var i :| 0 <= i < |es| && es[i].key == k.1;
    assert FindKey(es, k.1) <= i;
    assert Agrees(t[s].name, es, log);
  }

  lemma {:induction false} LiveIsFirst(t: Table, name: string)
    requires forall i | 0 <= i < |t| :: !t[i].defunct
    ensures FindLive(t, name) == FindSpace(t, name)
  {
    if t != [] && t[0].name != name {
      LiveIsFirst(t[1..], name);
    }
  }

  // ---- what the operations keep -------------------------------------------

  ghost predicate SameShape(t: Table, t': Table) {
    |t| == |t'| && forall i | 0 <= i < |t| :: t[i].name == t'[i].name && t[i].defunct == t'[i].defunct
  }

  ghost predicate HasNonGlobal(es: seq<Entry>, key: string) {
    exists i | 0 <= i < |es| :: es[i].key == key && !es[i].state.Global?
  }

  /** A copy of the key that the next commit sends. */
  ghost predicate WillSend(t: Table, k: Key) {
    exists s | 0 <= s < |t| :: t[s].name == k.0 && HasNonGlobal(t[s].entries, k.1)
  }

  /** No key is lost, and none stops being sent. */
  ghost predicate EntriesGrow(es: seq<Entry>, es': seq<Entry>) {
    && (forall key: string | HasKey(es, key) :: HasKey(es', key))
    && (forall key: string | HasNonGlobal(es, key) :: HasNonGlobal(es', key))
  }

  ghost predicate TableGrows(t: Table, t': Table) {
    SameShape(t, t') && forall s | 0 <= s < |t| :: EntriesGrow(t[s].entries, t'[s].entries)
  }

  lemma {:induction false} SameShapeFinds(t: Table, t': Table, name: string)
    requires SameShape(t, t')
    ensures FindSpace(t', name) == FindSpace(t, name)
  {
    if t != [] && t[0].name != name {
      SameShapeFinds(t[1..], t'[1..], name);
    }
  }

  lemma GrowthKeeps(t: Table, t': Table, names: set<string>)
    requires TableGrows(t, t')
    ensures KnownNames(t, names) ==> KnownNames(t', names)
    ensures forall k: Key | Holds(t, k) :: Holds(t', k)
    ensures forall k: Key | WillSend(t, k) :: WillSend(t', k)
  {
    forall n: string
      ensures FindSpace(t', n) == FindSpace(t, n)
    {
      SameShapeFinds(t, t', n);
    }
    forall k: Key | WillSend(t, k)
      ensures WillSend(t', k)
    {
      var s :| 0 <= s < |t| && t[s].name == k.0 && HasNonGlobal(t[s].entries, k.1);
      assert EntriesGrow(t[s].entries, t'[s].entries);
    }
    forall k: Key | Holds(t, k)
      ensures Holds(t', k)
    {
      assert EntriesGrow(t[FindSpace(t, k.0)].entries, t'[FindSpace(t, k.0)].entries);
    }
  }

  lemma GrowthIsTransitive(t: Table, u: Table, v: Table)
    requires TableGrows(t, u) && TableGrows(u, v)
    ensures TableGrows(t, v)
  {
    forall s | 0 <= s < |t|
      ensures EntriesGrow(t[s].entries, v[s].entries)
    {
      assert EntriesGrow(t[s].entries, u[s].entries) && EntriesGrow(u[s].entries, v[s].entries);
    }
  }

  lemma EntriesGrowPointwise(es: seq<Entry>, es': seq<Entry>)
    requires |es| <= |es'|
    requires forall i | 0 <= i < |es| :: es'[i].key == es[i].key && (es'[i].state.Global? ==> es[i].state.Global?)
    ensures EntriesGrow(es, es')
  {
    forall key: string | HasKey(es, key)
      ensures HasKey(es', key)
    {
      var i :| 0 <= i < |es| && es[i].key == key;
      assert es'[i].key == key;
    }
    forall key: string | HasNonGlobal(es, key)
      ensures HasNonGlobal(es', key)
    {
      var i :| 0 <= i < |es| && es[i].key == key && !es[i].state.Global?;
      assert es'[i].key == key && !es'[i].state.Global?;
    }
  }

  lemma PutEntryKeeps(es: seq<Entry>, key: string, value: string, local: bool, noDup: bool)
    ensures var es' := PutEntry(es, key, value, local, noDup);
            && EntriesGrow(es, es') && HasKey(es', key)
            && (local ==> HasNonGlobal(es', key))
  {
    var es' := PutEntry(es, key, value, local, noDup);
    EntriesGrowPointwise(es, es');
    var j := if noDup then |es| else FindKey(es, key);
    assert es'[j].key == key && (local ==> !es'[j].state.Global?);
  }

  lemma PutKeeps(t: Table, name: string, key: string, value: string, local: bool, noDup: bool)
    ensures var t' := Put(t, name, key, value, local, noDup);
            && TableGrows(t, t')
            && (FindSpace(t, name) < |t| ==> Holds(t', (name, key)) && (local ==> WillSend(t', (name, key))))
  {
    var t' := Put(t, name, key, value, local, noDup);
    var i := FindSpace(t, name);
    forall s | 0 <= s < |t|
      ensures EntriesGrow(t[s].entries, t'[s].entries)
    {
      PutEntryKeeps(t[s].entries, key, value, local, noDup);
      EntriesGrowPointwise(t[s].entries, t[s].entries);
    }
    SameShapeFinds(t, t', name);
    if i < |t| {
      PutEntryKeeps(t[i].entries, key, value, local, noDup);
    }
  }

  lemma PutAgrees(t: Table, name: string, key: string, value: string, local: bool, noDup: bool, log: map<Key, Origin>)
    requires TableAgrees(t, log) && ItemAgrees(Triple(name, key, value), log)
    ensures TableAgrees(Put(t, name, key, value, local, noDup), log)
  {
    var t' := Put(t, name, key, value, local, noDup);
    forall s | 0 <= s < |t'|
      ensures Agrees(t'[s].name, t'[s].entries, log)
    {
      assert Agrees(t[s].name, t[s].entries, log);
    }
  }

  lemma PermutationKeeps(es: seq<Entry>, es': seq<Entry>)
    requires multiset(es) == multiset(es')
    ensures EntriesGrow(es, es')
    ensures forall i | 0 <= i < |es'| :: es'[i] in es
  {
    forall i | 0 <= i < |es'|
      ensures es'[i] in es
    {
      assert es'[i] in multiset(es');
    }
    forall i | 0 <= i < |es|
      ensures es[i] in es'
    {
      assert es[i] in multiset(es);
    }
  }

  lemma CommitKeeps(t: Table, log: map<Key, Origin>)
    ensures TableGrows(t, CommitTable(t))
    ensures TableAgrees(t, log) ==> TableAgrees(CommitTable(t), log)
  {
    forall s | 0 <= s < |t|
      ensures EntriesGrow(t[s].entries, CommitTable(t)[s].entries)
      ensures Agrees(t[s].name, t[s].entries, log) ==> Agrees(t[s].name, CommitTable(t)[s].entries, log)
    {
      CommitPartitions(t[s].entries);
      PermutationKeeps(t[s].entries, CommitTable(t)[s].entries);
    }
  }

  lemma DisableKeeps(t: Table, log: map<Key, Origin>)
    ensures TableGrows(t, DisableLocal(t))
    ensures TableAgrees(t, log) ==> TableAgrees(DisableLocal(t), log)
  {
    forall s | 0 <= s < |t|
      ensures EntriesGrow(t[s].entries, DisableLocal(t)[s].entries)
      ensures Agrees(t[s].name, t[s].entries, log) ==> Agrees(t[s].name, DisableLocal(t)[s].entries, log)
    {
      EntriesGrowPointwise(t[s].entries, DisableLocal(t)[s].entries);
    }
  }

  lemma {:induction false} PutAllKeeps(t: Table, reply: seq<Triple>, noDup: bool, names: set<string>,
                                       log: map<Key, Origin>)
    requires KnownNames(t, names) && TableAgrees(t, log)
    requires forall j | 0 <= j < |reply| :: ItemAgrees(reply[j], log) && reply[j].name in names
    ensures var t' := PutAll(t, reply, noDup);
            && TableGrows(t, t') && TableAgrees(t', log)
            && forall k: Key | InReply(reply, k) :: Holds(t', k)
    decreases |reply|
  {
    if reply == [] {
      GrowthIsReflexive(t);
    } else {
      var item := reply[0];
      var u := Put(t, item.name, item.key, item.value, false, noDup);
      PutKeeps(t, item.name, item.key, item.value, false, noDup);
      PutAgrees(t, item.name, item.key, item.value, false, noDup, log);
      GrowthKeeps(t, u, names);
      PutAllKeeps(u, reply[1..], noDup, names, log);
      var t' := PutAll(t, reply, noDup);
      GrowthIsTransitive(t, u, t');
      GrowthKeeps(u, t', names);
      forall k: Key | InReply(reply, k)
        ensures Holds(t', k)
      {
        var j :| 0 <= j < |reply| && (reply[j].name, reply[j].key) == k;
        if j > 0 { assert reply[1..][j - 1] == reply[j]; }
      }
    }
  }

  lemma GrowthIsReflexive(t: Table)
    ensures TableGrows(t, t)
  {
    forall s | 0 <= s < |t|
      ensures EntriesGrow(t[s].entries, t[s].entries)
    {
      EntriesGrowPointwise(t[s].entries, t[s].entries);
    }
  }

  lemma BarrierKeeps(t: Table, reply: seq<Triple>, noDup: bool, names: set<string>, log: map<Key, Origin>)
    requires KnownNames(t, names) && TableAgrees(t, log)
    requires forall j | 0 <= j < |reply| :: ItemAgrees(reply[j], log) && reply[j].name in names
    ensures var t' := Barrier(t, reply, noDup);
            && TableGrows(t, t') && TableAgrees(t', log)
            && forall k: Key | InReply(reply, k) :: Holds(t', k)
  {
    DisableKeeps(t, log);
    GrowthKeeps(t, DisableLocal(t), names);
    PutAllKeeps(DisableLocal(t), reply, noDup, names, log);
    GrowthIsTransitive(t, DisableLocal(t), Barrier(t, reply, noDup));
  }

  // ---- what a commit sends ------------------------------------------------

  lemma {:induction false} NonGlobalMembers(es: seq<Entry>, key: string)
    requires HasNonGlobal(es, key)
    ensures exists i | 0 <= i < |NonGlobal(es)| :: NonGlobal(es)[i].key == key
  {
    var i :| 0 <= i < |es| && es[i].key == key && !es[i].state.Global?;
    if i == 0 {
      assert NonGlobal(es)[0].key == key;
    } else {
      assert es[1..][i - 1] == es[i];
      NonGlobalMembers(es[1..], key);
      var j :| 0 <= j < |NonGlobal(es[1..])| && NonGlobal(es[1..])[j].key == key;
      var d := if es[0].state.Global? then 0 else 1;
      assert NonGlobal(es)[j + d] == NonGlobal(es[1..])[j];
    }
  }

  lemma SentByCovers(s: Space, log: map<Key, Origin>)
    requires !s.defunct && Agrees(s.name, s.entries, log)
    ensures forall key: string | HasNonGlobal(s.entries, key) :: InReply(SentBy(s), (s.name, key))
    ensures forall j | 0 <= j < |SentBy(s)| :: ItemAgrees(SentBy(s)[j], log)
  {
    CommitPartitions(s.entries);
    var (es, lp) := SwapLoop(s.entries, 0, 0);
    PermutationKeeps(s.entries, es);
    forall key: string | HasNonGlobal(s.entries, key)
      ensures InReply(SentBy(s), (s.name, key))
    {
      NonGlobalMembers(s.entries, key);
      var i :| 0 <= i < |NonGlobal(s.entries)| && NonGlobal(s.entries)[i].key == key;
      assert SentBy(s)[i] == Triple(s.name, key, es[i].value);
    }
  }

  lemma InReplyConcat(a: seq<Triple>, b: seq<Triple>, k: Key)
    ensures InReply(a + b, k) <==> InReply(a, k) || InReply(b, k)
  {
    if InReply(a, k) {
      var j :| 0 <= j < |a| && (a[j].name, a[j].key) == k;
      assert (a + b)[j] == a[j];
    }
    if InReply(b, k) {
      var j :| 0 <= j < |b| && (b[j].name, b[j].key) == k;
      assert (a + b)[|a| + j] == b[j];
    }
  }

  lemma {:induction false} SentCovers(t: Table, log: map<Key, Origin>)
    requires TableAgrees(t, log) && forall i | 0 <= i < |t| :: !t[i].defunct
    ensures forall k: Key | WillSend(t, k) :: InReply(Sent(t), k)
    ensures forall j | 0 <= j < |Sent(t)| :: ItemAgrees(Sent(t)[j], log)
  {
    if t != [] {
      assert forall i | 0 <= i < |t[1..]| :: t[1..][i] == t[i + 1];
      SentCovers(t[1..], log);
      SentByCovers(t[0], log);
      forall k: Key | WillSend(t, k)
        ensures InReply(Sent(t), k)
      {
        InReplyConcat(SentBy(t[0]), Sent(t[1..]), k);
        var s :| 0 <= s < |t| && t[s].name == k.0 && HasNonGlobal(t[s].entries, k.1);
        if s > 0 {
          assert t[1..][s - 1] == t[s];
          assert WillSend(t[1..], k);
        } else {
          assert (t[0].name, k.1) == k;
        }
      }
    }
  }

  // ---- what the server keeps ----------------------------------------------

  ghost predicate ServerAgrees(server: seq<Stored>, log: map<Key, Origin>) {
    forall j | 0 <= j < |server| :: ItemAgrees(server[j].item, log)
  }

  /** Keys stay, and a pair that is marked as sent was so before. */
  ghost predicate ServerGrows(a: seq<Stored>, b: seq<Stored>) {
    && |a| <= |b|
    && (forall j | 0 <= j < |a| :: SameKey(a[j].item, b[j].item))
    && (forall j | 0 <= j < |b| :: b[j].sent ==> j < |a| && a[j].sent)
  }

  lemma MergeOneKeeps(server: seq<Stored>, item: Triple, noDup: bool, log: map<Key, Origin>)
    requires ServerAgrees(server, log) && ItemAgrees(item, log)
    ensures var r := MergeOne(server, item, noDup);
            ServerAgrees(r, log) && ServerGrows(server, r) && InServer(r, (item.name, item.key))
  {
    var r := MergeOne(server, item, noDup);
    var j := if noDup then |server| else FindStored(server, item);
    assert (r[j].item.name, r[j].item.key) == (item.name, item.key);
  }

  lemma {:induction false} MergeKeeps(server: seq<Stored>, items: seq<Triple>, noDup: bool, log: map<Key, Origin>)
    requires ServerAgrees(server, log) && forall j | 0 <= j < |items| :: ItemAgrees(items[j], log)
    ensures var r := Merge(server, items, noDup);
            && ServerAgrees(r, log) && ServerGrows(server, r)
            && forall k: Key | InReply(items, k) :: InServer(r, k)
    decreases |items|
  {
    if items != [] {
      var u := MergeOne(server, items[0], noDup);
      MergeOneKeeps(server, items[0], noDup, log);
      MergeKeeps(u, items[1..], noDup, log);
      var r := Merge(server, items, noDup);
      forall k: Key | InReply(items, k)
        ensures InServer(r, k)
      {
        var j :| 0 <= j < |items| && (items[j].name, items[j].key) == k;
        if j > 0 {
          assert items[1..][j - 1] == items[j];
        } else {
          ServerKeysStay(u, r, k);
        }
      }
    }
  }

  lemma ServerKeysStay(a: seq<Stored>, b: seq<Stored>, k: Key)
    requires ServerGrows(a, b) && InServer(a, k)
    ensures InServer(b, k)
  {
    var j :| 0 <= j < |a| && (a[j].item.name, a[j].item.key) == k;
    assert SameKey(a[j].item, b[j].item);
  }

  lemma {:induction false} UnsentCovers(server: seq<Stored>, log: map<Key, Origin>)
    requires ServerAgrees(server, log)
    ensures forall j | 0 <= j < |server| && !server[j].sent ::
              InReply(Unsent(server), (server[j].item.name, server[j].item.key))
    ensures forall j | 0 <= j < |Unsent(server)| :: ItemAgrees(Unsent(server)[j], log)
  {
    if server != [] {
      UnsentCovers(server[1..], log);
      var front := if server[0].sent then [] else [server[0].item];
      forall j | 0 <= j < |server| && !server[j].sent
        ensures InReply(Unsent(server), (server[j].item.name, server[j].item.key))
      {
        InReplyConcat(front, Unsent(server[1..]), (server[j].item.name, server[j].item.key));
        if j > 0 {
          assert server[1..][j - 1] == server[j];
        } else {
          assert front[0] == server[0].item;
        }
      }
    }
  }

  // ---- the invariant ------------------------------------------------------

  /** Rank q has the key, or is about to take it out of the reply. */
  ghost predicate Delivered(q: Rank, reply: seq<Triple>, k: Key) {
    Holds(q.table, k) || (q.phase.Released? && InReply(reply, k))
  }

  /** h records puts of log. */
  ghost predicate Within(h: map<Key, Origin>, log: map<Key, Origin>) {
    forall k | k in h :: k in log && log[k] == h[k]
  }

  ghost predicate RankInv(q: Rank, names: set<string>, log: map<Key, Origin>) {
    && KnownNames(q.table, names) && TableAgrees(q.table, log)
    && (q.dirty ==> q.phase.Running?)
    && Within(q.view, log) && (forall k | k in q.view :: Holds(q.table, k))
  }

  /** A put is on the server, or its rank will send it with the next commit. */
  ghost predicate LogInv(w: World, names: set<string>) {
    forall k | k in w.log ::
      && k.0 in names && w.log[k].rank < |w.ranks|
      && (InServer(w.server, k) || (w.ranks[w.log[k].rank].dirty && WillSend(w.ranks[w.log[k].rank].table, k)))
  }

  /** What was sent has reached every rank, up to the reply under way. */
  ghost predicate SentInv(w: World) {
    forall j, r | 0 <= j < |w.server| && w.server[j].sent && 0 <= r < |w.ranks| ::
      Delivered(w.ranks[r], w.reply, (w.server[j].item.name, w.server[j].item.key))
  }

  ghost predicate PublishedInv(w: World) {
    && Within(w.published, w.log)
    && forall k, r | k in w.published && 0 <= r < |w.ranks| :: Delivered(w.ranks[r], w.reply, k)
  }

  ghost predicate Inv(w: World, names: set<string>) {
    && (forall r | 0 <= r < |w.ranks| :: RankInv(w.ranks[r], names, w.log))
    && ServerAgrees(w.server, w.log) && (forall j | 0 <= j < |w.reply| :: ItemAgrees(w.reply[j], w.log))
    && LogInv(w, names) && SentInv(w) && PublishedInv(w)
  }

  lemma InitialInv(w: World, names: set<string>)
    requires Initial(w, names)
    ensures Inv(w, names)
  {
  }

  /** The log only gains puts of new keys, so everything that agreed still does. */
  lemma RankInvKept(q: Rank, names: set<string>, log: map<Key, Origin>, log': map<Key, Origin>)
    requires RankInv(q, names, log) && Within(log, log')
    ensures RankInv(q, names, log')
  {
    forall s | 0 <= s < |q.table|
      ensures Agrees(q.table[s].name, q.table[s].entries, log')
    {
      assert Agrees(q.table[s].name, q.table[s].entries, log);
    }
  }

  /** A rank whose table grows and whose phase does not end a release keeps what
      was delivered to it. */
  lemma DeliveredKept(q: Rank, q': Rank, reply: seq<Triple>, names: set<string>, k: Key)
    requires TableGrows(q.table, q'.table) && (q.phase.Released? ==> q'.phase.Released?)
    requires Delivered(q, reply, k)
    ensures Delivered(q', reply, k)
  {
    GrowthKeeps(q.table, q'.table, names);
  }

  lemma ItemsAgreeStill(w: World, log: map<Key, Origin>)
    requires ServerAgrees(w.server, w.log) && (forall j | 0 <= j < |w.reply| :: ItemAgrees(w.reply[j], w.log))
    requires Within(w.log, log)
    ensures ServerAgrees(w.server, log) && (forall j | 0 <= j < |w.reply| :: ItemAgrees(w.reply[j], log))
  {
    forall j | 0 <= j < |w.server|
      ensures ItemAgrees(w.server[j].item, log)
    {
      assert ItemAgrees(w.server[j].item, w.log);
    }
  }

  lemma PutDelivered(w: World, e: Event, names: set<string>)
    requires SentInv(w) && PublishedInv(w) && Enabled(w, e, names) && e.PutKey?
    ensures SentInv(Next(w, e, names)) && PublishedInv(Next(w, e, names))
  {
    PutKeeps(w.ranks[e.rank].table, e.name, e.key, e.value, true, w.noDup);
    OneRankDelivered(w, Next(w, e, names), e.rank, names);
  }

  lemma PutLogInv(w: World, e: Event, names: set<string>)
    requires LogInv(w, names) && Enabled(w, e, names) && e.PutKey? && KnownNames(w.ranks[e.rank].table, names)
    ensures LogInv(Next(w, e, names), names)
  {
    var w' := Next(w, e, names);
    var k, q, q' := (e.name, e.key), w.ranks[e.rank], w'.ranks[e.rank];
    PutKeeps(q.table, e.name, e.key, e.value, true, w.noDup);
    GrowthKeeps(q.table, q'.table, names);
    forall l | l in w'.log
      ensures InServer(w'.server, l) || (w'.ranks[w'.log[l].rank].dirty && WillSend(w'.ranks[w'.log[l].rank].table, l))
    {
      if l != k { assert l in w.log; }
    }
  }

  lemma PutRanksInv(w: World, e: Event, names: set<string>)
    requires forall r | 0 <= r < |w.ranks| :: RankInv(w.ranks[r], names, w.log)
    requires Enabled(w, e, names) && e.PutKey?
    ensures var w' := Next(w, e, names); forall r | 0 <= r < |w'.ranks| :: RankInv(w'.ranks[r], names, w'.log)
  {
    var w' := Next(w, e, names);
    forall r | 0 <= r < |w'.ranks|
      ensures RankInv(w'.ranks[r], names, w'.log)
    {
      RankInvKept(w.ranks[r], names, w.log, w'.log);
      if r == e.rank {
        PutRankInv(w.ranks[r], names, e.name, e.key, e.value, w.noDup, w'.log);
      }
    }
  }

  lemma PutInv(w: World, e: Event, names: set<string>)
    requires Inv(w, names) && Enabled(w, e, names) && e.PutKey?
    ensures Inv(Next(w, e, names), names)
  {
    var w' := Next(w, e, names);
    assert RankInv(w.ranks[e.rank], names, w.log);
    PutRanksInv(w, e, names);
    PutLogInv(w, e, names);
    PutDelivered(w, e, names);
    ItemsAgreeStill(w, w'.log);
  }

  lemma PutRankInv(q: Rank, names: set<string>, name: string, key: string, value: string, noDup: bool,
                   log: map<Key, Origin>)
    requires RankInv(q, names, log) && q.phase.Running? && ItemAgrees(Triple(name, key, value), log)
    ensures RankInv(q.(table := Put(q.table, name, key, value, true, noDup), dirty := true), names, log)
  {
    PutKeeps(q.table, name, key, value, true, noDup);
    PutAgrees(q.table, name, key, value, true, noDup, log);
    GrowthKeeps(q.table, Put(q.table, name, key, value, true, noDup), names);
  }

  /** If only rank r changes, and only by growing, deliveries stand. */
  lemma OneRankDelivered(w: World, w': World, r: nat, names: set<string>)
    requires SentInv(w) && PublishedInv(w)
    requires r < |w.ranks| == |w'.ranks| && w'.ranks == w.ranks[r := w'.ranks[r]]
    requires TableGrows(w.ranks[r].table, w'.ranks[r].table)
    requires w.ranks[r].phase.Released? ==> w'.ranks[r].phase.Released?
    requires w'.reply == w.reply && w'.published == w.published && Within(w.published, w'.log)
    requires ServerGrows(w.server, w'.server)
    ensures SentInv(w') && PublishedInv(w')
  {
    forall j, q | 0 <= j < |w'.server| && w'.server[j].sent && 0 <= q < |w'.ranks|
      ensures Delivered(w'.ranks[q], w'.reply, (w'.server[j].item.name, w'.server[j].item.key))
    {
      assert SameKey(w.server[j].item, w'.server[j].item);
      if q == r {
        DeliveredKept(w.ranks[r], w'.ranks[r], w.reply, names, (w.server[j].item.name, w.server[j].item.key));
      }
    }
    forall k, q | k in w'.published && 0 <= q < |w'.ranks|
      ensures Delivered(w'.ranks[q], w'.reply, k)
    {
      if q == r {
        DeliveredKept(w.ranks[r], w'.ranks[r], w.reply, names, k);
      }
    }
  }

  lemma CommitLogInv(w: World, w': World, r: nat, names: set<string>)
    requires LogInv(w, names) && r < |w.ranks| == |w'.ranks| && w'.log == w.log
    requires w'.ranks == w.ranks[r := w'.ranks[r]] && ServerGrows(w.server, w'.server)
    requires forall k: Key | WillSend(w.ranks[r].table, k) :: InServer(w'.server, k)
    ensures LogInv(w', names)
  {
    forall k | k in w'.log
      ensures InServer(w'.server, k) || (w'.ranks[w'.log[k].rank].dirty && WillSend(w'.ranks[w'.log[k].rank].table, k))
    {
      if InServer(w.server, k) {
        ServerKeysStay(w.server, w'.server, k);
      }
    }
  }

  lemma CommitInv(w: World, e: Event, names: set<string>)
    requires Inv(w, names) && Enabled(w, e, names) && e.Commit?
    ensures Inv(Next(w, e, names), names)
  {
    var r, w' := e.rank, Next(w, e, names);
    var q, q' := w.ranks[r], w'.ranks[r];
    assert RankInv(q, names, w.log);
    CommitKeeps(q.table, w.log);
    GrowthKeeps(q.table, q'.table, names);
    SentCovers(q.table, w.log);
    MergeKeeps(w.server, Sent(q.table), w.noDup, w.log);
    CommitLogInv(w, w', r, names);
    OneRankDelivered(w, w', r, names);
  }

  lemma EnterInv(w: World, e: Event, names: set<string>)
    requires Inv(w, names) && Enabled(w, e, names) && e.Enter?
    ensures Inv(Next(w, e, names), names)
  {
    var r, w' := e.rank, Next(w, e, names);
    assert RankInv(w.ranks[r], names, w.log);
    GrowthIsReflexive(w.ranks[r].table);
    OneRankDelivered(w, w', r, names);
  }

  /** When all ranks wait, what is stored has reached every rank already or is in
      the reply. */
  lemma ReleaseDelivers(w: World, names: set<string>, j: nat, r: nat)
    requires Inv(w, names) && Enabled(w, Release, names) && j < |w.server| && r < |w.ranks|
    ensures var w' := Next(w, Release, names);
            Delivered(w'.ranks[r], w'.reply, (w.server[j].item.name, w.server[j].item.key))
  {
    UnsentCovers(w.server, w.log);
    if w.server[j].sent {
      assert Delivered(w.ranks[r], w.reply, (w.server[j].item.name, w.server[j].item.key));
    }
  }

  /** ... and every put is stored, because all of them were committed. */
  lemma ReleaseStores(w: World, names: set<string>, k: Key) returns (j: nat)
    requires Inv(w, names) && Enabled(w, Release, names) && k in w.log
    ensures j < |w.server| && (w.server[j].item.name, w.server[j].item.key) == k
  {
    assert RankInv(w.ranks[w.log[k].rank], names, w.log);
    j :| 0 <= j < |w.server| && (w.server[j].item.name, w.server[j].item.key) == k;
  }

  lemma ReleaseRanksInv(w: World, names: set<string>)
    requires forall r | 0 <= r < |w.ranks| :: RankInv(w.ranks[r], names, w.log)
    requires Enabled(w, Release, names)
    ensures forall r | 0 <= r < |w.ranks| :: RankInv(Next(w, Release, names).ranks[r], names, w.log)
  {
    forall r | 0 <= r < |w.ranks|
      ensures RankInv(ReleaseRanks(w.ranks)[r], names, w.log)
    {
      assert RankInv(w.ranks[r], names, w.log);
    }
  }

  lemma ReleaseLogInv(w: World, names: set<string>)
    requires Inv(w, names) && Enabled(w, Release, names)
    ensures LogInv(Next(w, Release, names), names) && PublishedInv(Next(w, Release, names))
  {
    var w' := Next(w, Release, names);
    forall k | k in w.log
      ensures InServer(w'.server, k)
      ensures forall r | 0 <= r < |w.ranks| :: Delivered(w'.ranks[r], w'.reply, k)
    {
      var j := ReleaseStores(w, names, k);
      assert w'.server[j].item == w.server[j].item;
      forall r | 0 <= r < |w.ranks|
        ensures Delivered(w'.ranks[r], w'.reply, k)
      {
        ReleaseDelivers(w, names, j, r);
      }
    }
  }

  lemma ReleaseInv(w: World, e: Event, names: set<string>)
    requires Inv(w, names) && Enabled(w, e, names) && e.Release?
    ensures Inv(Next(w, e, names), names)
  {
    var w' := Next(w, e, names);
    UnsentCovers(w.server, w.log);
    ReleaseRanksInv(w, names);
    ReleaseLogInv(w, names);
    forall j, r | 0 <= j < |w.server| && 0 <= r < |w.ranks|
      ensures Delivered(w'.ranks[r], w'.reply, (w'.server[j].item.name, w'.server[j].item.key))
    {
      ReleaseDelivers(w, names, j, r);
    }
  }

  /** Leaving turns what was under way into what is held. */
  lemma LeaveDelivers(w: World, w': World, r: nat)
    requires SentInv(w) && PublishedInv(w)
    requires r < |w.ranks| == |w'.ranks| && w' == w.(ranks := w.ranks[r := w'.ranks[r]])
    requires forall k: Key | Delivered(w.ranks[r], w.reply, k) :: Holds(w'.ranks[r].table, k)
    ensures SentInv(w') && PublishedInv(w')
  {
    forall j, p | 0 <= j < |w.server| && w.server[j].sent && 0 <= p < |w.ranks|
      ensures Delivered(w'.ranks[p], w'.reply, (w.server[j].item.name, w.server[j].item.key))
    {
      assert Delivered(w.ranks[p], w.reply, (w.server[j].item.name, w.server[j].item.key));
    }
    forall k, p | k in w.published && 0 <= p < |w.ranks|
      ensures Delivered(w'.ranks[p], w'.reply, k)
    {
      assert Delivered(w.ranks[p], w.reply, k);
    }
  }

  lemma LeaveInv(w: World, e: Event, names: set<string>)
    requires Inv(w, names) && Enabled(w, e, names) && e.Leave?
    ensures Inv(Next(w, e, names), names)
  {
    var r, w' := e.rank, Next(w, e, names);
    var q, q' := w.ranks[r], w'.ranks[r];
    assert RankInv(q, names, w.log);
    BarrierKeeps(q.table, w.reply, w.noDup, names, w.log);
    GrowthKeeps(q.table, q'.table, names);
    LeaveDelivers(w, w', r);
    forall k | k in q'.view
      ensures Holds(q'.table, k)
    {
      assert Delivered(q, w.reply, k);
    }
  }

  /** Every step keeps the invariant. */
  lemma NextInv(w: World, e: Event, names: set<string>)
    requires Inv(w, names) && Enabled(w, e, names)
    ensures Inv(Next(w, e, names), names)
  {
    match e
    case PutKey(_, _, _, _) => PutInv(w, e, names);
    case Commit(_) => CommitInv(w, e, names);
    case Enter(_) => EnterInv(w, e, names);
    case Release => ReleaseInv(w, e, names);
    case Leave(_) => LeaveInv(w, e, names);
  }

  // ---- whole runs ---------------------------------------------------------

  /** b is later than a: puts and what each rank may rely on only grow. */
  ghost predicate Later(a: World, b: World) {
    && |a.ranks| == |b.ranks| && Within(a.log, b.log) && Within(a.published, b.published)
    && forall r | 0 <= r < |a.ranks| :: Within(a.ranks[r].view, b.ranks[r].view)
  }

  ghost predicate ViewInv(w: World) {
    Within(w.published, w.log) && forall r | 0 <= r < |w.ranks| :: Within(w.ranks[r].view, w.published)
  }

  lemma NextLater(w: World, e: Event, names: set<string>)
    requires Enabled(w, e, names) && ViewInv(w)
    ensures Later(w, Next(w, e, names)) && ViewInv(Next(w, e, names))
  {
  }

  lemma {:induction false} RunInv(w: World, es: seq<Event>, names: set<string>)
    requires CanRun(w, es, names) && Inv(w, names) && ViewInv(w)
    ensures Inv(Run(w, es, names), names) && ViewInv(Run(w, es, names)) && Later(w, Run(w, es, names))
    decreases |es|
  {
    if es != [] {
      NextInv(w, es[0], names);
      NextLater(w, es[0], names);
      RunInv(Next(w, es[0], names), es[1..], names);
    }
  }

  /** In every reachable state, a rank never gets a value that was not put for
      that key. */
  lemma GetNeverInvents(w0: World, es: seq<Event>, names: set<string>, r: nat, name: string, key: string)
    requires Initial(w0, names) && CanRun(w0, es, names) && r < |w0.ranks|
    ensures var w := Run(w0, es, names);
            Get(w.ranks[r].table, name, key).Found? ==>
              (name, key) in w.log && Get(w.ranks[r].table, name, key).value == w.log[(name, key)].value
  {
    InitialInv(w0, names);
    RunInv(w0, es, names);
    var w := Run(w0, es, names);
    assert RankInv(w.ranks[r], names, w.log);
    var t := w.ranks[r].table;
    if FindLive(t, name) < |t| {
      assert Agrees(t[FindLive(t, name)].name, t[FindLive(t, name)].entries, w.log);
    }
  }

  /** In every reachable state, every rank gets what was put before the last
      barrier it left, by whichever rank put it. */
  lemma GetAfterBarrier(w0: World, es: seq<Event>, names: set<string>, r: nat, k: Key)
    requires Initial(w0, names) && CanRun(w0, es, names) && r < |w0.ranks|
    requires k in Run(w0, es, names).ranks[r].view
    ensures var w := Run(w0, es, names);
            k in w.log && Get(w.ranks[r].table, k.0, k.1) == Found(w.log[k].value)
  {
    InitialInv(w0, names);
    RunInv(w0, es, names);
    var w := Run(w0, es, names);
    assert RankInv(w.ranks[r], names, w.log);
    HeldKeysAreFound(w.ranks[r].table, names, w.log, k);
  }

  /** Multi-rank visibility over whole runs: whatever was put by the time a
      barrier is released is what every rank gets once it has left that barrier,
      then and ever after.  `before` is the run up to the release, `between` leads
      to the rank's leaving, and `after` is anything that follows. */
  lemma PutsBeforeBarrierAreVisible(w0: World, before: seq<Event>, between: seq<Event>, after: seq<Event>,
                                    names: set<string>, r: nat, k: Key)
    requires Initial(w0, names) && CanDo(w0, before, Release, names) && r < |w0.ranks|
    requires CanDo(After(w0, before, Release, names), between, Leave(r), names)
    requires CanRun(After(After(w0, before, Release, names), between, Leave(r), names), after, names)
    requires k in Run(w0, before, names).log
    ensures var w := Run(After(After(w0, before, Release, names), between, Leave(r), names), after, names);
            Get(w.ranks[r].table, k.0, k.1) == Found(Run(w0, before, names).log[k].value)
  {
    InitialInv(w0, names);
    RunInv(w0, before, names);
    var w1 := Run(w0, before, names);
    NextInv(w1, Release, names);
    NextLater(w1, Release, names);
    var w2 := Next(w1, Release, names);
    RunInv(w2, between, names);
    var w3 := Run(w2, between, names);
    NextInv(w3, Leave(r), names);
    NextLater(w3, Leave(r), names);
    var w4 := Next(w3, Leave(r), names);
    RunInv(w4, after, names);
    var w := Run(w4, after, names);
    assert k in w2.published && k in w3.published && k in w4.ranks[r].view && k in w.ranks[r].view;
    assert RankInv(w.ranks[r], names, w.log);
    HeldKeysAreFound(w.ranks[r].table, names, w.log, k);
  }
}
