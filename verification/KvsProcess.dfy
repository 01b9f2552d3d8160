/** The operations of pmi.c on the records of one process, with the parallel
    arrays, loops and return codes of the source. */
module KvsProcess {
  import opened Kvs

  const PMI_MAX_KVSNAME_LEN: nat := 256
  const PMI_MAX_KEY_LEN: nat := 256
  const PMI_MAX_VAL_LEN: nat := 1024

  datatype Rc = Success | InvalidKvs | InvalidKey | InvalidVal | InvalidLength

  /** The C type int, and its conversion to size_t. */
  type CInt = x: int | -0x8000_0000 <= x < 0x8000_0000

  function ToSize(x: int): nat {
    x % 0x1_0000_0000_0000_0000
  }

  lemma ToSizeOfInt(x: int)
    requires -0x1_0000_0000 <= x < 0x8000_0000
    ensures ToSize(x) == if x >= 0 then x else 0x1_0000_0000_0000_0000 + x
  {
  }

  /** What a caller's buffer holds afterwards: the value, what it held before, or
      zeros far behind its end, where C does not define what follows. */
  datatype Buffer = Holding(value: string) | Untouched | Overflowed

  /** struct kvs_rec; inx is a 16-bit counter. */
  datatype Rec = Rec(name: string, defunct: bool, inx: nat,
                     states: seq<KeyState>, keys: seq<string>, values: seq<string>)
  {
    predicate Valid() {
      |states| == |keys| == |values|
    }

    function Entries(): (es: seq<Entry>)
      requires Valid()
      ensures |es| == |keys|
    {
      seq(|keys|, i requires 0 <= i < |keys| => Entry(states[i], keys[i], values[i]))
    }

    function View(): Space
      requires Valid()
    {
      Space(name, defunct, Entries())
    }
  }

  predicate AllValid(recs: seq<Rec>) {
    forall i | 0 <= i < |recs| :: recs[i].Valid()
  }

  function TableOf(recs: seq<Rec>): (t: Table)
    requires AllValid(recs)
    ensures |t| == |recs|
  {
    seq(|recs|, i requires 0 <= i < |recs| => recs[i].View())
  }

  lemma TableUpdate(recs: seq<Rec>, i: nat, r: Rec)
    requires AllValid(recs) && i < |recs| && r.Valid()
    ensures AllValid(recs[i := r]) && TableOf(recs[i := r]) == TableOf(recs)[i := r.View()]
  {
  }

  // ---- the inner loops ----------------------------------------------------

  method SearchKey(r: Rec, key: string) returns (j: nat)
    requires r.Valid()
    ensures j == FindKey(r.Entries(), key)
  {
    ghost var es := r.Entries();
    j := 0;
    assert es[0..] == es;
    while j < |r.keys| && r.keys[j] != key
      invariant 0 <= j <= |r.keys|
      invariant FindKey(es, key) == j + FindKey(es[j..], key)
    {
      assert es[j..][1..] == es[j + 1..];
      j := j + 1;
    }
  }

  method SearchSpace(recs: seq<Rec>, name: string) returns (i: nat)
    requires AllValid(recs)
    ensures i == FindSpace(TableOf(recs), name)
  {
    ghost var t := TableOf(recs);
    i := 0;
    assert t[0..] == t;
    while i < |recs| && recs[i].name != name
      invariant 0 <= i <= |recs|
      invariant FindSpace(t, name) == i + FindSpace(t[i..], name)
    {
      assert t[i..][1..] == t[i + 1..];
      i := i + 1;
    }
  }

  method SearchLive(recs: seq<Rec>, name: string) returns (i: nat)
    requires AllValid(recs)
    ensures i == FindLive(TableOf(recs), name)
  {
    ghost var t := TableOf(recs);
    i := 0;
    assert t[0..] == t;
    while i < |recs| && (recs[i].defunct || recs[i].name != name)
      invariant 0 <= i <= |recs|
      invariant FindLive(t, name) == i + FindLive(t[i..], name)
    {
      assert t[i..][1..] == t[i + 1..];
      i := i + 1;
    }
  }

  /** _kvs_swap. */
  function SwapRec(r: Rec, i: nat, j: nat): (s: Rec)
    requires r.Valid() && i < |r.keys| && j < |r.keys|
    ensures s.Valid() && s.Entries() == Swap(r.Entries(), i, j)
    ensures s.name == r.name && s.defunct == r.defunct && s.inx == r.inx
  {
    var s := r.(states := r.states[i := r.states[j]][j := r.states[i]],
                keys := r.keys[i := r.keys[j]][j := r.keys[i]],
                values := r.values[i := r.values[j]][j := r.values[i]]);
    assert s.Entries() == Swap(r.Entries(), i, j);
    s
  }

  /** The loop of PMI_KVS_Commit over one record. */
  method PartitionRec(rec: Rec) returns (r: Rec, localPairs: nat)
    requires rec.Valid()
    ensures r.Valid() && r.name == rec.name && r.defunct == rec.defunct && r.inx == rec.inx
    ensures (r.Entries(), localPairs) == SwapLoop(rec.Entries(), 0, 0)
  {
    r, localPairs := rec, 0;
    var j := 0;
    while j < |r.keys|
      invariant 0 <= localPairs <= j <= |r.keys| && r.Valid()
      invariant r.name == rec.name && r.defunct == rec.defunct && r.inx == rec.inx
      invariant SwapLoop(r.Entries(), j, localPairs) == SwapLoop(rec.Entries(), 0, 0)
      decreases |r.keys| - j
    {
      if !r.states[j].Global? {
        if localPairs != j {
          r := SwapRec(r, j, localPairs);
        } else {
          assert Swap(r.Entries(), j, j) == r.Entries();
        }
        localPairs := localPairs + 1;
      }
      j := j + 1;
    }
  }

  /** One round of PMI_KVS_Commit: partition a record that is not defunct, and
      point the message at its first local_pairs keys and values. */
  method CommitRec(rec: Rec) returns (r: Rec, pairs: seq<Triple>)
    requires rec.Valid()
    ensures r.Valid() && r.View() == CommitSpace(rec.View())
    ensures pairs == SentBy(rec.View())
  {
    r, pairs := rec, [];
    if !rec.defunct {
      var n: nat;
      r, n := PartitionRec(rec);
      if n > 0 {
        pairs := seq(n, i requires 0 <= i < n => Triple(r.name, r.keys[i], r.values[i]));
      }
      assert pairs == Tagged(r.name, r.Entries()[..n]);
    }
  }

  method DisableStates(states: seq<KeyState>) returns (r: seq<KeyState>)
    ensures |r| == |states|
    ensures forall j | 0 <= j < |states| :: r[j] == if states[j].Local? then Disabled else states[j]
  {
    r := states;
    var j := 0;
    while j < |r|
      invariant 0 <= j <= |r| == |states|
      invariant forall k | 0 <= k < j :: r[k] == if states[k].Local? then Disabled else states[k]
      invariant forall k | j <= k < |r| :: r[k] == states[k]
    {
      if r[j].Local? {
        r := r[j := Disabled];
      }
      j := j + 1;
    }
  }

  method DisableRec(rec: Rec) returns (r: Rec)
    requires rec.Valid()
    ensures r.Valid() && r.View() == rec.View().(entries := DisableEntries(rec.Entries()))
  {
    var states := DisableStates(rec.states);
    r := rec.(states := states);
    assert r.Entries() == DisableEntries(rec.Entries());
  }

  lemma SentCons(s: Space, t: Table)
    ensures Sent([s] + t) == SentBy(s) + Sent(t)
  {
    assert ([s] + t)[1..] == t;
  }

  lemma {:induction false} SentAppend(t: Table, s: Space)
    ensures Sent(t + [s]) == Sent(t) + SentBy(s)
  {
    if t == [] {
      SentCons(s, []);
      assert t + [s] == [s] + [];
    } else {
      var h, rest := t[0], t[1..];
      calc {
        Sent(t + [s]);
        { assert t + [s] == [h] + (rest + [s]); }
        Sent([h] + (rest + [s]));
        { SentCons(h, rest + [s]); }
        SentBy(h) + Sent(rest + [s]);
        { SentAppend(rest, s); }
        SentBy(h) + (Sent(rest) + SentBy(s));
        { ConcatAssociates(SentBy(h), Sent(rest), SentBy(s)); }
        SentBy(h) + Sent(rest) + SentBy(s);
      }
    }
  }

  lemma ConcatAssociates(a: seq<Triple>, b: seq<Triple>, c: seq<Triple>)
    ensures a + (b + c) == a + b + c
  {
  }

  lemma SentNext(t: Table, i: nat)
    requires i < |t|
    ensures Sent(t[..i + 1]) == Sent(t[..i]) + SentBy(t[i])
  {
    SentAppend(t[..i], t[i]);
    assert t[..i + 1] == t[..i] + [t[i]];
  }

  /** Some record has this name. */
  ghost predicate Names(t: Table, name: string) {
    exists i | 0 <= i < |t| :: t[i].name == name
  }

  ghost predicate AllNamed(t: Table, items: seq<Triple>) {
    forall k | 0 <= k < |items| :: Names(t, items[k].name)
  }

  ghost predicate SameNames(t: Table, u: Table) {
    |t| == |u| && forall i | 0 <= i < |t| :: t[i].name == u[i].name
  }

  lemma NamedAlike(t: Table, u: Table, name: string)
    requires SameNames(t, u)
    ensures Names(t, name) <==> Names(u, name)
  {
    if i :| 0 <= i < |t| && t[i].name == name {
      assert u[i].name == name;
    }
  }

  lemma AllNamedAlike(t: Table, u: Table, items: seq<Triple>)
    requires SameNames(t, u)
    ensures AllNamed(t, items) <==> AllNamed(u, items)
  {
    forall k | 0 <= k < |items|
      ensures Names(t, items[k].name) <==> Names(u, items[k].name)
    {
      NamedAlike(t, u, items[k].name);
    }
  }

  /** The state of the barrier's loop: k pairs of the reply have been put into t,
      which gives u. */
  ghost predicate Merging(t: Table, u: Table, reply: seq<Triple>, k: nat, noDup: bool, rc: Rc) {
    && k <= |reply| && SameNames(t, u)
    && PutAll(u, reply[k..], noDup) == PutAll(t, reply, noDup)
    && rc == if AllNamed(t, reply[..k]) then Success else InvalidKvs
  }

  lemma MergingStep(t: Table, u: Table, reply: seq<Triple>, k: nat, noDup: bool, rc: Rc)
    requires Merging(t, u, reply, k, noDup, rc) && k < |reply|
    ensures Merging(t, Put(u, reply[k].name, reply[k].key, reply[k].value, false, noDup), reply, k + 1, noDup,
                    if Names(u, reply[k].name) then rc else InvalidKvs)
  {
    NamedAlike(t, u, reply[k].name);
    assert reply[k..][1..] == reply[k + 1..];
    AllNamedNext(t, reply, k);
  }

  lemma AllNamedNext(t: Table, items: seq<Triple>, k: nat)
    requires k < |items|
    ensures AllNamed(t, items[..k + 1]) <==> AllNamed(t, items[..k]) && Names(t, items[k].name)
  {
    assert items[..k + 1] == items[..k] + [items[k]];
    assert items[..k + 1][k] == items[k];
  }

  lemma MergingEnds(t: Table, u: Table, reply: seq<Triple>, noDup: bool, rc: Rc)
    requires Merging(t, u, reply, |reply|, noDup, rc)
    ensures u == PutAll(t, reply, noDup)
    ensures rc == if AllNamed(t, reply) then Success else InvalidKvs
  {
    assert reply[..|reply|] == reply && reply[|reply|..] == [];
  }

  // ---- one process --------------------------------------------------------

  class Process {
    const noDup: bool
    var recs: seq<Rec>

    constructor (noDupKeys: bool)
      ensures recs == [] && noDup == noDupKeys
    {
      recs, noDup := [], noDupKeys;
    }

    ghost predicate Valid()
      reads this
    {
      AllValid(recs)
    }

    ghost function Contents(): Table
      requires Valid()
      reads this
    {
      TableOf(recs)
    }

    /** _init_kvs. */
    method InitKvs(name: string)
      requires Valid()
      modifies this
      ensures Valid() && Contents() == old(Contents()) + [Space(name, false, [])]
    {
      ghost var was := TableOf(recs);
      recs := recs + [Rec(name, false, 0, [], [], [])];
      assert TableOf(recs) == was + [Space(name, false, [])];
    }

    /** _kvs_put. */
    method PutPair(name: string, key: string, value: string, local: bool) returns (rc: Rc)
      requires Valid()
      modifies this
      ensures Valid() && Contents() == Put(old(Contents()), name, key, value, local, noDup)
      ensures rc == if Names(old(Contents()), name) then Success else InvalidKvs
    {
      ghost var t := TableOf(recs);
      var i := SearchSpace(recs, name);
      if i == |recs| {
        return InvalidKvs;
      }
      var r := recs[i];
      var j := |r.keys|;
      if !noDup {
        j := SearchKey(r, key);
      }
      ghost var es := r.Entries();
      if j < |r.keys| {
        var state := if local then Local else r.states[j];
        r := r.(states := r.states[j := state], values := r.values[j := value]);
      } else {
        var state := if local then Local else Global;
        r := r.(states := r.states + [state], keys := r.keys + [key], values := r.values + [value]);
      }
      assert r.Entries() == PutEntry(es, key, value, local, noDup);
      TableUpdate(recs, i, r);
      recs := recs[i := r];
      rc := Success;
    }

    /** PMI_KVS_Put. */
    method KvsPut(name: string, key: string, value: string) returns (rc: Rc)
      requires Valid()
      modifies this
      ensures Valid()
      ensures rc.Success? ==> Contents() == Put(old(Contents()), name, key, value, true, noDup)
      ensures !rc.Success? ==> Contents() == old(Contents())
      ensures rc == if |name| > 256 then InvalidKvs
                    else if |key| > 256 then InvalidKey
                    else if |value| > 1024 then InvalidVal
                    else if Names(old(Contents()), name) then Success else InvalidKvs
    {
      if |name| > PMI_MAX_KVSNAME_LEN {
        return InvalidKvs;
      }
      if |key| > PMI_MAX_KEY_LEN {
        return InvalidKey;
      }
      if |value| > PMI_MAX_VAL_LEN {
        return InvalidVal;
      }
      rc := PutPair(name, key, value, true);
    }

    /** PMI_KVS_Commit: partition every record that is not defunct, and return
        the pairs that go into the message. */
    method Commit() returns (msg: seq<Triple>)
      requires Valid()
      modifies this
      ensures Valid() && Contents() == CommitTable(old(Contents()))
      ensures msg == Sent(old(Contents()))
    {
      ghost var was := recs;
      msg := [];
      var i := 0;
      while i < |recs|
        invariant 0 <= i <= |recs| == |was| && AllValid(recs)
        invariant forall k | 0 <= k < i :: recs[k].View() == CommitSpace(was[k].View())
        invariant forall k | i <= k < |recs| :: recs[k] == was[k]
        invariant msg == Sent(TableOf(was)[..i])
      {
        var r, pairs := CommitRec(recs[i]);
        SentNext(TableOf(was), i);
        msg := msg + pairs;
        recs := recs[i := r];
        i := i + 1;
      }
      assert TableOf(recs) == CommitTable(TableOf(was));
      assert TableOf(was)[..|was|] == TableOf(was);
    }

    /** _kvs_disable_local_keys. */
    method DisableLocalKeys()
      requires Valid()
      modifies this
      ensures Valid() && Contents() == DisableLocal(old(Contents()))
    {
      ghost var was := recs;
      var i := 0;
      while i < |recs|
        invariant 0 <= i <= |recs| == |was| && AllValid(recs)
        invariant forall k | 0 <= k < i :: recs[k].View() == was[k].View().(entries := DisableEntries(was[k].Entries()))
        invariant forall k | i <= k < |recs| :: recs[k] == was[k]
      {
        var r := DisableRec(recs[i]);
        recs := recs[i := r];
        i := i + 1;
      }
      assert TableOf(recs) == DisableLocal(TableOf(was));
    }

    /** The loop of PMI_Barrier over the pairs of the reply. */
    method PutReply(reply: seq<Triple>) returns (rc: Rc)
      requires Valid()
      modifies this
      ensures Valid() && Contents() == PutAll(old(Contents()), reply, noDup)
      ensures rc == if AllNamed(old(Contents()), reply) then Success else InvalidKvs
    {
      rc := Success;
      ghost var t := TableOf(recs);
      var k := 0;
      assert reply[0..] == reply;
      while k < |reply|
        invariant 0 <= k <= |reply| && AllValid(recs)
        invariant Merging(t, TableOf(recs), reply, k, noDup, rc)
      {
        MergingStep(t, TableOf(recs), reply, k, noDup, rc);
        var one := PutPair(reply[k].name, reply[k].key, reply[k].value, false);
        if one != Success {
          rc := one;
        }
        k := k + 1;
      }
      MergingEnds(t, TableOf(recs), reply, noDup, rc);
    }

    /** PMI_Barrier, given the reply of the server. */
    method MergeReply(reply: seq<Triple>) returns (rc: Rc)
      requires Valid()
      modifies this
      ensures Valid() && Contents() == Barrier(old(Contents()), reply, noDup)
      ensures rc == if AllNamed(old(Contents()), reply) then Success else InvalidKvs
    {
      AllNamedAlike(TableOf(recs), DisableLocal(TableOf(recs)), reply);
      DisableLocalKeys();
      rc := PutReply(reply);
    }

    /** PMI_KVS_Get with room for length characters.  The length is compared as a
        size_t, so the check does not see one that is not positive: a successful call
        delivers the value if and only if the length is positive. */
    method KvsGet(name: string, key: string, length: CInt) returns (rc: Rc, buffer: Buffer)
      requires Valid()
      ensures |name| > 256 ==> rc == InvalidKvs
      ensures |name| <= 256 && |key| > 256 ==> rc == InvalidKey
      ensures |name| <= 256 && |key| <= 256 ==>
                match Get(Contents(), name, key)
                case NoSuchSpace => rc == InvalidKvs
                case NoSuchKey => rc == InvalidKey
                case Found(v) =>
                  && rc == (if |v| >= (if length > 0 then 0 else 0x1_0000_0000_0000_0000) + length then InvalidLength
                            else Success)
                  && (rc.Success? ==> buffer == if length > 0 then Holding(v)
                                                else if length == 0 then Untouched else Overflowed)
      ensures rc.Success? ==> (buffer.Holding? <==> length > 0)
      ensures !rc.Success? ==> buffer == Untouched
    {
      buffer := Untouched;
      if |name| > PMI_MAX_KVSNAME_LEN {
        return InvalidKvs, buffer;
      }
      if |key| > PMI_MAX_KEY_LEN {
        return InvalidKey, buffer;
      }
      var i := SearchLive(recs, name);
      if i == |recs| {
        return InvalidKvs, buffer;
      }
      var j := SearchKey(recs[i], key);
      if j == |recs[i].keys| {
        return InvalidKey, buffer;
      }
      ToSizeOfInt(length - 1);
      if |recs[i].values[j]| > ToSize(length - 1) {
        return InvalidLength, buffer;
      }
      rc := Success;                                       // strncpy
      if length > 0 {
        buffer := Holding(recs[i].values[j]);
      } else if length < 0 {
        buffer := Overflowed;
      }
    }
  }
}
