/** The tables of all ranks refine maps: at every step of every run, a rank finds
    exactly its own puts and what was put before the last barrier it left. */
module KvsRefinement {
  import opened Kvs
  import opened KvsProtocol

  /** What rank r is to see: a map, whatever copies its arrays hold. */
  ghost function Visible(w: World, r: nat): map<Key, string>
    requires r < |w.ranks|
  {
    map k | k in w.log && (w.log[k].rank == r || k in w.ranks[r].view) :: w.log[k].value
  }

  /** Every put is with its rank, whatever a rank holds is its own or was published
      before it left a barrier, and so is what is under way. */
  ghost predicate HeldInv(w: World) {
    && (forall k | k in w.log :: w.log[k].rank < |w.ranks| && Holds(w.ranks[w.log[k].rank].table, k))
    && (forall r, k | 0 <= r < |w.ranks| && Holds(w.ranks[r].table, k) :: k in Visible(w, r))
    && (forall k | InReply(w.reply, k) :: k in w.published)
  }

  // ---- no operation makes keys up -----------------------------------------

  lemma PutHolds(t: Table, name: string, key: string, value: string, local: bool, noDup: bool, k: Key)
    requires Holds(Put(t, name, key, value, local, noDup), k) && k != (name, key)
    ensures Holds(t, k)
  {
    var t' := Put(t, name, key, value, local, noDup);
    PutKeeps(t, name, key, value, local, noDup);
    SameShapeFinds(t, t', k.0);
    var s := FindSpace(t, k.0);
    var i :| 0 <= i < |t'[s].entries| && t'[s].entries[i].key == k.1;
    assert i < |t[s].entries| && t[s].entries[i].key == k.1;
  }

  lemma {:induction false} PutAllHolds(t: Table, reply: seq<Triple>, noDup: bool, k: Key)
    requires Holds(PutAll(t, reply, noDup), k)
    ensures Holds(t, k) || InReply(reply, k)
    decreases |reply|
  {
    if reply != [] {
      var item := reply[0];
      PutAllHolds(Put(t, item.name, item.key, item.value, false, noDup), reply[1..], noDup, k);
      InReplyConcat([item], reply[1..], k);
      assert reply == [item] + reply[1..] && [item][0] == item;
      if !InReply(reply, k) { PutHolds(t, item.name, item.key, item.value, false, noDup, k); }
    }
  }

  lemma DisableHolds(t: Table, k: Key)
    requires Holds(DisableLocal(t), k)
    ensures Holds(t, k)
  {
    SameShapeFinds(t, DisableLocal(t), k.0);
    var s := FindSpace(t, k.0);
    var i :| 0 <= i < |DisableLocal(t)[s].entries| && DisableLocal(t)[s].entries[i].key == k.1;
    assert t[s].entries[i].key == k.1;
  }

  lemma CommitHolds(t: Table, k: Key)
    requires Holds(CommitTable(t), k)
    ensures Holds(t, k)
  {
    SameShapeFinds(t, CommitTable(t), k.0);
    var s := FindSpace(t, k.0);
    CommitPartitions(t[s].entries);
    PermutationKeeps(t[s].entries, CommitTable(t)[s].entries);
  }

  // ---- every step keeps the invariant -------------------------------------

  /** No rank loses a key. */
  lemma NextGrows(w: World, e: Event, names: set<string>, r: nat)
    requires Inv(w, names) && Enabled(w, e, names) && r < |w.ranks|
    ensures TableGrows(w.ranks[r].table, Next(w, e, names).ranks[r].table)
  {
    var t := w.ranks[r].table;
    assert RankInv(w.ranks[r], names, w.log);
    GrowthIsReflexive(t);
    match e
    case PutKey(q, name, key, value) =>
      if q == r { PutKeeps(t, name, key, value, true, w.noDup); }
    case Commit(q) =>
      if q == r { CommitKeeps(t, w.log); }
    case Enter(_) =>
    case Release =>
    case Leave(q) =>
      if q == r { BarrierKeeps(t, w.reply, w.noDup, names, w.log); }
  }

  lemma NextKeepsKey(w: World, e: Event, names: set<string>, r: nat, k: Key)
    requires Inv(w, names) && Enabled(w, e, names) && r < |w.ranks| && Holds(w.ranks[r].table, k)
    ensures Holds(Next(w, e, names).ranks[r].table, k)
  {
    NextGrows(w, e, names, r);
    GrowthKeeps(w.ranks[r].table, Next(w, e, names).ranks[r].table, names);
  }

  lemma PutIsHeld(w: World, e: Event, names: set<string>)
    requires Enabled(w, e, names) && e.PutKey? && KnownNames(w.ranks[e.rank].table, names)
    ensures Holds(Next(w, e, names).ranks[e.rank].table, (e.name, e.key))
  {
    PutKeeps(w.ranks[e.rank].table, e.name, e.key, e.value, true, w.noDup);
  }

  lemma OwnPutsHeld(w: World, e: Event, names: set<string>, k: Key)
    requires Inv(w, names) && Enabled(w, e, names) && k in Next(w, e, names).log
    requires k in w.log ==> w.log[k].rank < |w.ranks| && Holds(w.ranks[w.log[k].rank].table, k)
    ensures var w' := Next(w, e, names); Holds(w'.ranks[w'.log[k].rank].table, k)
  {
    if k in w.log {
      NextKeepsKey(w, e, names, w.log[k].rank, k);
    } else {
      assert RankInv(w.ranks[e.rank], names, w.log);
      PutIsHeld(w, e, names);
    }
  }

  lemma StillVisible(w: World, e: Event, names: set<string>, r: nat, k: Key)
    requires Enabled(w, e, names) && ViewInv(w) && r < |w.ranks| && k in Visible(w, r)
    ensures k in Visible(Next(w, e, names), r)
  {
    NextLater(w, e, names);
  }

  lemma LeaveHolds(t: Table, reply: seq<Triple>, noDup: bool, k: Key)
    requires Holds(Barrier(t, reply, noDup), k) && !Holds(t, k)
    ensures InReply(reply, k)
  {
    PutAllHolds(DisableLocal(t), reply, noDup, k);
    if !InReply(reply, k) { DisableHolds(t, k); }
  }

  /** A rank comes to hold a key by putting it or out of the reply. */
  lemma NewlyHeld(w: World, e: Event, names: set<string>, r: nat, k: Key)
    requires Enabled(w, e, names) && r < |w.ranks| && !Holds(w.ranks[r].table, k)
    requires Holds(Next(w, e, names).ranks[r].table, k)
    ensures (e.PutKey? && e.rank == r && k == (e.name, e.key)) || (e == Leave(r) && InReply(w.reply, k))
  {
    var t := w.ranks[r].table;
    match e
    case PutKey(q, name, key, value) =>
      if k != (name, key) && q == r { PutHolds(t, name, key, value, true, w.noDup, k); }
    case Commit(q) =>
      if q == r { CommitHolds(t, k); }
    case Enter(_) =>
    case Release =>
    case Leave(q) =>
      if q == r { LeaveHolds(t, w.reply, w.noDup, k); }
  }

  lemma HeldIsVisible(w: World, e: Event, names: set<string>, r: nat, k: Key)
    requires ViewInv(w) && HeldInv(w) && Enabled(w, e, names) && r < |w.ranks|
    requires Holds(Next(w, e, names).ranks[r].table, k)
    ensures k in Visible(Next(w, e, names), r)
  {
    if Holds(w.ranks[r].table, k) {
      StillVisible(w, e, names, r, k);
    } else {
      NewlyHeld(w, e, names, r, k);
    }
  }

  lemma ReplyIsPublished(w: World, e: Event, names: set<string>, k: Key)
    requires Inv(w, names) && HeldInv(w) && Enabled(w, e, names) && InReply(Next(w, e, names).reply, k)
    ensures k in Next(w, e, names).published
  {
    if e.Release? {
      UnsentCovers(w.server, w.log);
      var j :| 0 <= j < |Unsent(w.server)| && (Unsent(w.server)[j].name, Unsent(w.server)[j].key) == k;
      assert ItemAgrees(Unsent(w.server)[j], w.log);
    }
  }

  lemma NextHeldInv(w: World, e: Event, names: set<string>)
    requires Inv(w, names) && ViewInv(w) && HeldInv(w) && Enabled(w, e, names)
    ensures HeldInv(Next(w, e, names))
  {
    var w' := Next(w, e, names);
    forall k | k in w'.log
      ensures w'.log[k].rank < |w'.ranks| && Holds(w'.ranks[w'.log[k].rank].table, k)
    {
      OwnPutsHeld(w, e, names, k);
    }
    forall r, k | 0 <= r < |w'.ranks| && Holds(w'.ranks[r].table, k)
      ensures k in Visible(w', r)
    {
      HeldIsVisible(w, e, names, r, k);
    }
    forall k | InReply(w'.reply, k)
      ensures k in w'.published
    {
      ReplyIsPublished(w, e, names, k);
    }
  }

  lemma {:induction false} RunHeldInv(w: World, es: seq<Event>, names: set<string>)
    requires CanRun(w, es, names) && Inv(w, names) && ViewInv(w) && HeldInv(w)
    ensures HeldInv(Run(w, es, names))
    decreases |es|
  {
    if es != [] {
      NextInv(w, es[0], names);
      NextLater(w, es[0], names);
      NextHeldInv(w, es[0], names);
      RunHeldInv(Next(w, es[0], names), es[1..], names);
    }
  }

  lemma InitialHeldInv(w: World, names: set<string>)
    requires Initial(w, names)
    ensures HeldInv(w)
  {
    forall r, k: Key | 0 <= r < |w.ranks|
      ensures !Holds(w.ranks[r].table, k)
    {
      var s := FindSpace(w.ranks[r].table, k.0);
      if s < |w.ranks[r].table| { assert w.ranks[r].table[s].entries == []; }
    }
  }

  // ---- the theorem --------------------------------------------------------

  lemma MissingKey(t: Table, names: set<string>, k: Key)
    requires KnownNames(t, names) && !Holds(t, k)
    ensures Get(t, k.0, k.1) == if k.0 in names then NoSuchKey else NoSuchSpace
  {
    LiveIsFirst(t, k.0);
  }

  /** At every step of every run, PMI_KVS_Get at rank r is a lookup in the map of
      what r has put itself and what anyone put before the release of the last
      barrier that r left. */
  lemma TableRefinesMap(w0: World, es: seq<Event>, names: set<string>, r: nat, k: Key)
    requires Initial(w0, names) && CanRun(w0, es, names) && r < |w0.ranks|
    ensures var w := Run(w0, es, names);
            Get(w.ranks[r].table, k.0, k.1)
            == if k in Visible(w, r) then Found(Visible(w, r)[k])
               else if k.0 in names then NoSuchKey else NoSuchSpace
  {
    var w := Run(w0, es, names);
    InitialInv(w0, names);
    InitialHeldInv(w0, names);
    RunInv(w0, es, names);
    RunHeldInv(w0, es, names);
    assert RankInv(w.ranks[r], names, w.log);
    if k in Visible(w, r) {
      HeldKeysAreFound(w.ranks[r].table, names, w.log, k);
    } else {
      MissingKey(w.ranks[r].table, names, k);
    }
  }

  /** A rank gets its own put from the put on, whatever follows. */
  lemma OwnPutIsFound(w0: World, before: seq<Event>, put: Event, after: seq<Event>, names: set<string>)
    requires Initial(w0, names) && put.PutKey? && CanDo(w0, before, put, names)
    requires CanRun(After(w0, before, put, names), after, names)
    ensures var w := Run(After(w0, before, put, names), after, names);
            Get(w.ranks[put.rank].table, put.name, put.key) == Found(put.value)
  {
    var w1, w2 := Run(w0, before, names), After(w0, before, put, names);
    var w := Run(w2, after, names);
    InitialInv(w0, names);
    InitialHeldInv(w0, names);
    RunInv(w0, before, names);
    RunHeldInv(w0, before, names);
    NextInv(w1, put, names);
    NextLater(w1, put, names);
    NextHeldInv(w1, put, names);
    RunInv(w2, after, names);
    RunHeldInv(w2, after, names);
    assert (put.name, put.key) in w2.log && (put.name, put.key) in w.log;
    assert RankInv(w.ranks[put.rank], names, w.log);
    HeldKeysAreFound(w.ranks[put.rank].table, names, w.log, (put.name, put.key));
  }
}
