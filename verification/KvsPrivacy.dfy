/** A put that has not been committed is not visible to other processes. */
module KvsPrivacy {
  import opened Kvs
  import opened KvsProtocol

  ghost predicate Lacks(name: string, es: seq<Entry>, k: Key) {
    forall i | 0 <= i < |es| :: (name, es[i].key) != k
  }

  /** No copy of the key in any record. */
  ghost predicate Hides(t: Table, k: Key) {
    forall s | 0 <= s < |t| :: Lacks(t[s].name, t[s].entries, k)
  }

  /** The key is with rank r only: not at another rank, nor at the server, nor
      under way. */
  ghost predicate Private(w: World, r: nat, k: Key) {
    && k in w.log && !InServer(w.server, k) && !InReply(w.reply, k)
    && forall q | 0 <= q < |w.ranks| && q != r :: Hides(w.ranks[q].table, k)
  }

  lemma PutHides(t: Table, name: string, key: string, value: string, local: bool, noDup: bool, k: Key)
    requires Hides(t, k) && (name, key) != k
    ensures Hides(Put(t, name, key, value, local, noDup), k)
  {
    var t' := Put(t, name, key, value, local, noDup);
    forall s | 0 <= s < |t'|
      ensures Lacks(t'[s].name, t'[s].entries, k)
    {
      assert Lacks(t[s].name, t[s].entries, k);
    }
  }

  lemma {:induction false} PutAllHides(t: Table, reply: seq<Triple>, noDup: bool, k: Key)
    requires Hides(t, k) && !InReply(reply, k)
    ensures Hides(PutAll(t, reply, noDup), k)
    decreases |reply|
  {
    if reply != [] {
      var item := reply[0];
      assert !InReply(reply[1..], k) by {
        InReplyConcat([item], reply[1..], k);
        assert reply == [item] + reply[1..];
      }
      PutHides(t, item.name, item.key, item.value, false, noDup, k);
      PutAllHides(Put(t, item.name, item.key, item.value, false, noDup), reply[1..], noDup, k);
    }
  }

  lemma BarrierHides(t: Table, reply: seq<Triple>, noDup: bool, k: Key)
    requires Hides(t, k) && !InReply(reply, k)
    ensures Hides(Barrier(t, reply, noDup), k)
  {
    forall s | 0 <= s < |t|
      ensures Lacks(t[s].name, DisableEntries(t[s].entries), k)
    {
      assert Lacks(t[s].name, t[s].entries, k);
    }
    PutAllHides(DisableLocal(t), reply, noDup, k);
  }

  lemma CommitSpaceHides(s: Space, k: Key)
    requires Lacks(s.name, s.entries, k)
    ensures Lacks(s.name, SwapLoop(s.entries, 0, 0).0, k) && !InReply(SentBy(s), k)
  {
    CommitPartitions(s.entries);
    PermutationKeeps(s.entries, SwapLoop(s.entries, 0, 0).0);
  }

  lemma {:induction false} SentHides(t: Table, k: Key)
    requires Hides(t, k)
    ensures !InReply(Sent(t), k)
  {
    if t != [] {
      assert Lacks(t[0].name, t[0].entries, k);
      CommitSpaceHides(t[0], k);
      SentHides(t[1..], k);
      InReplyConcat(SentBy(t[0]), Sent(t[1..]), k);
    }
  }

  lemma CommitHides(t: Table, k: Key)
    requires Hides(t, k)
    ensures Hides(CommitTable(t), k)
  {
    forall s | 0 <= s < |t|
      ensures Lacks(t[s].name, CommitTable(t)[s].entries, k)
    {
      CommitSpaceHides(t[s], k);
    }
  }

  lemma {:induction false} MergeHides(server: seq<Stored>, items: seq<Triple>, noDup: bool, k: Key)
    requires !InServer(server, k) && !InReply(items, k)
    ensures !InServer(Merge(server, items, noDup), k)
    decreases |items|
  {
    if items != [] {
      InReplyConcat([items[0]], items[1..], k);
      assert items == [items[0]] + items[1..];
      assert (items[0].name, items[0].key) != k;
      MergeHides(MergeOne(server, items[0], noDup), items[1..], noDup, k);
    }
  }

  lemma {:induction false} UnsentHides(server: seq<Stored>, k: Key)
    requires !InServer(server, k)
    ensures !InReply(Unsent(server), k)
  {
    if server != [] {
      assert (server[0].item.name, server[0].item.key) != k;
      UnsentHides(server[1..], k);
      InReplyConcat(if server[0].sent then [] else [server[0].item], Unsent(server[1..]), k);
    }
  }

  /** Every step but a commit of rank r keeps the key private. */
  lemma NextKeepsPrivate(w: World, e: Event, names: set<string>, r: nat, k: Key)
    requires Private(w, r, k) && Enabled(w, e, names) && e != Commit(r)
    ensures Private(Next(w, e, names), r, k)
  {
    match e
    case PutKey(q, name, key, value) =>
      if q != r { PutHides(w.ranks[q].table, name, key, value, true, w.noDup, k); }
    case Commit(q) =>
      CommitHides(w.ranks[q].table, k);
      SentHides(w.ranks[q].table, k);
      MergeHides(w.server, Sent(w.ranks[q].table), w.noDup, k);
    case Enter(_) =>
    case Release =>
      UnsentHides(w.server, k);
    case Leave(q) =>
      if q != r { BarrierHides(w.ranks[q].table, w.reply, w.noDup, k); }
  }

  lemma {:induction false} RunKeepsPrivate(w: World, es: seq<Event>, names: set<string>, r: nat, k: Key)
    requires Private(w, r, k) && CanRun(w, es, names) && Commit(r) !in es
    ensures Private(Run(w, es, names), r, k)
    decreases |es|
  {
    if es != [] {
      NextKeepsPrivate(w, es[0], names, r, k);
      RunKeepsPrivate(Next(w, es[0], names), es[1..], names, r, k);
    }
  }

  /** A key that nobody has put yet is nowhere, so a put makes it private. */
  lemma PutIsPrivate(w: World, e: Event, names: set<string>)
    requires Inv(w, names) && Enabled(w, e, names) && e.PutKey?
    ensures Private(Next(w, e, names), e.rank, (e.name, e.key))
  {
    var k := (e.name, e.key);
    forall q | 0 <= q < |w.ranks|
      ensures Hides(w.ranks[q].table, k)
    {
      assert RankInv(w.ranks[q], names, w.log);
      forall s | 0 <= s < |w.ranks[q].table|
        ensures Lacks(w.ranks[q].table[s].name, w.ranks[q].table[s].entries, k)
      {
        assert Agrees(w.ranks[q].table[s].name, w.ranks[q].table[s].entries, w.log);
      }
    }
  }

  lemma HiddenIsNotFound(t: Table, k: Key)
    requires Hides(t, k)
    ensures !Get(t, k.0, k.1).Found?
  {
    var i := FindLive(t, k.0);
    if i < |t| { assert Lacks(t[i].name, t[i].entries, k); }
  }

  /** What a rank has put stays invisible to every other rank until that rank
      commits, whatever else happens in the meantime. */
  lemma PutIsInvisibleUntilCommit(w0: World, before: seq<Event>, put: Event, after: seq<Event>,
                                  names: set<string>, q: nat)
    requires Initial(w0, names) && put.PutKey? && CanDo(w0, before, put, names)
    requires CanRun(After(w0, before, put, names), after, names) && Commit(put.rank) !in after
    requires q < |w0.ranks| && q != put.rank
    ensures var w := Run(After(w0, before, put, names), after, names);
            !Get(w.ranks[q].table, put.name, put.key).Found?
  {
    InitialInv(w0, names);
    RunInv(w0, before, names);
    var w1 := Run(w0, before, names);
    PutIsPrivate(w1, put, names);
    RunKeepsPrivate(Next(w1, put, names), after, names, put.rank, (put.name, put.key));
    var w := Run(Next(w1, put, names), after, names);
    HiddenIsNotFound(w.ranks[q].table, (put.name, put.key));
  }
}
