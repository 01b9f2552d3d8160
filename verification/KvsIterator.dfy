/** PMI_KVS_Iter_first and PMI_KVS_Iter_next of pmi.c. */
module KvsIterator {
  import opened Kvs
  import opened KvsProcess

  const UINT16: nat := 65536

  predicate Live(r: Rec, name: string) {
    !r.defunct && r.name == name
  }

  /** Record i is the only one of this name that is not defunct. */
  predicate OnlyLive(recs: seq<Rec>, name: string, i: nat) {
    i < |recs| && forall k | 0 <= k < |recs| :: Live(recs[k], name) <==> k == i
  }

  /** First position from j on that is not DISABLED; the length if there is none. */
  function NextEnabled(states: seq<KeyState>, j: nat): (k: nat)
    requires j <= |states|
    ensures j <= k <= |states|
    ensures k < |states| ==> !states[k].Disabled?
    ensures forall i | j <= i < k :: states[i].Disabled?
    decreases |states| - j
  {
    if j == |states| || !states[j].Disabled? then j else NextEnabled(states, j + 1)
  }

  /** The pairs an iteration is meant to return: those not DISABLED, in order. */
  function EnabledPairs(r: Rec, n: nat): seq<(string, string)>
    requires r.Valid() && n <= |r.keys|
    decreases n
  {
    if n == 0 then []
    else EnabledPairs(r, n - 1) + if r.states[n - 1].Disabled? then [] else [(r.keys[n - 1], r.values[n - 1])]
  }

  lemma {:induction false} SkipDisabled(r: Rec, j: nat, k: nat)
    requires r.Valid() && j <= k <= |r.keys|
    requires forall i | j <= i < k :: r.states[i].Disabled?
    ensures EnabledPairs(r, k) == EnabledPairs(r, j)
    decreases k - j
  {
    if j < k { SkipDisabled(r, j, k - 1); }
  }

  lemma SkipToEnabled(r: Rec, j: nat)
    requires r.Valid() && j <= |r.keys|
    ensures var k := NextEnabled(r.states, j);
            if k < |r.keys| then EnabledPairs(r, k + 1) == EnabledPairs(r, j) + [(r.keys[k], r.values[k])]
            else EnabledPairs(r, |r.keys|) == EnabledPairs(r, j)
  {
    SkipDisabled(r, j, NextEnabled(r.states, j));
  }

  /** LeftRecord: the loop reads behind the arrays of the record.  C does not define
      what follows, so the model stops there. */
  datatype Answer = Answer(rc: Rc, key: string, value: string) | LeftRecord

  const EMPTY: Answer := Answer(Success, "", "")
  const NO_KVS: Answer := Answer(InvalidKvs, "", "")

  function PairAt(r: Rec, j: nat): Answer
    requires r.Valid() && j < |r.keys|
  {
    Answer(Success, r.keys[j], r.values[j])
  }

  predicate AllDisabled(r: Rec) {
    forall j | 0 <= j < |r.states| :: r.states[j].Disabled?
  }

  // ---- what the two calls do to the records -------------------------------

  function WithIndex(recs: seq<Rec>, i: nat, inx: nat): (r: seq<Rec>)
    requires i < |recs|
    ensures |r| == |recs| && (AllValid(recs) ==> AllValid(r))
  {
    recs[i := recs[i].(inx := inx)]
  }

  /** PMI_KVS_Iter_first from record i on.  The guard of its inner loop tests i
      instead of the position in the record: below the number of pairs it runs
      until a pair that is not DISABLED, otherwise it does not run at all. */
  function FirstFrom(recs: seq<Rec>, name: string, i: nat): (Answer, seq<Rec>)
    requires AllValid(recs) && i <= |recs|
    decreases |recs| - i
  {
    if i == |recs| then (NO_KVS, recs)
    else if !Live(recs[i], name) then FirstFrom(recs, name, i + 1)
    else if |recs[i].keys| == 0 then (EMPTY, WithIndex(recs, i, 0))
    else if i >= |recs[i].keys| then FirstFrom(WithIndex(recs, i, 0), name, i + 1)
    else
      var j := NextEnabled(recs[i].states, 0);
      if j < |recs[i].keys| then (PairAt(recs[i], j), WithIndex(recs, i, j % UINT16))
      else (LeftRecord, WithIndex(recs, i, 0))
  }

  /** PMI_KVS_Iter_next from record i on. */
  function NextFrom(recs: seq<Rec>, name: string, i: nat): (Answer, seq<Rec>)
    requires AllValid(recs) && i <= |recs|
    decreases |recs| - i
  {
    if i == |recs| then (NO_KVS, recs)
    else if !Live(recs[i], name) then NextFrom(recs, name, i + 1)
    else
      var n := (recs[i].inx + 1) % UINT16;
      if n >= |recs[i].keys| then (EMPTY, WithIndex(recs, i, n))
      else
        var j := NextEnabled(recs[i].states, n);
        if j < |recs[i].keys| then (PairAt(recs[i], j), WithIndex(recs, i, j % UINT16))
        else NextFrom(WithIndex(recs, i, n), name, i + 1)
  }

  // ---- what the two calls answer ------------------------------------------

  /** Searching from record k on, Iter_first ends at record i, or finds none if that is
      behind the last one: it goes on from records that are not live or of another name,
      and from those that have pairs, but no more than their index. */
  ghost predicate FirstEndsAt(recs: seq<Rec>, name: string, k: nat, i: nat) {
    && k <= i <= |recs|
    && (i < |recs| ==> !recs[i].defunct && recs[i].name == name && !(0 < |recs[i].keys| <= i))
    && forall m | k <= m < i && !recs[m].defunct && recs[m].name == name :: 0 < |recs[m].keys| <= m
  }

  /** The answer of Iter_first. */
  lemma {:induction false} FirstFromIs(recs: seq<Rec>, name: string, k: nat, i: nat)
    requires AllValid(recs) && FirstEndsAt(recs, name, k, i)
    ensures FirstFrom(recs, name, k).0
         == if i == |recs| then Answer(InvalidKvs, "", "")
            else if |recs[i].keys| == 0 then Answer(Success, "", "")
            else
              var j := NextEnabled(recs[i].states, 0);
              if j < |recs[i].keys| then Answer(Success, recs[i].keys[j], recs[i].values[j]) else LeftRecord
    decreases |recs| - k
  {
    hide NextEnabled;
    if k < i {
      var later := if Live(recs[k], name) then WithIndex(recs, k, 0) else recs;
      FirstSkips(recs, later, name, k, i);
      FirstFromIs(later, name, k + 1, i);
    }
  }

  /** The indices it leaves. */
  lemma {:induction false} FirstIndicesAre(recs: seq<Rec>, name: string, k: nat, i: nat)
    requires AllValid(recs) && FirstEndsAt(recs, name, k, i)
    ensures var r := FirstFrom(recs, name, k).1;
            && |r| == |recs|
            && forall m | 0 <= m < |recs| ::
                 r[m] == recs[m].(inx := if m < k || m > i || recs[m].defunct || recs[m].name != name then recs[m].inx
                                         else if m < i then 0
                                         else
                                           var j := NextEnabled(recs[m].states, 0);
                                           if j < |recs[m].keys| then j % 65536 else 0)
    decreases |recs| - k
  {
    hide NextEnabled;
    if k < i {
      var later := if Live(recs[k], name) then WithIndex(recs, k, 0) else recs;
      FirstSkips(recs, later, name, k, i);
      FirstIndicesAre(later, name, k + 1, i);
    }
  }

  lemma FirstSkips(recs: seq<Rec>, later: seq<Rec>, name: string, k: nat, i: nat)
    requires AllValid(recs) && k < i && FirstEndsAt(recs, name, k, i)
    requires later == if Live(recs[k], name) then WithIndex(recs, k, 0) else recs
    ensures FirstFrom(recs, name, k) == FirstFrom(later, name, k + 1)
    ensures FirstEndsAt(later, name, k + 1, i)
    ensures forall m | 0 <= m < |recs| && m != k :: later[m] == recs[m]
  {
  }

  /** Iter_next goes on from a record whose remaining pairs are all DISABLED. */
  ghost predicate NextEndsAt(recs: seq<Rec>, name: string, k: nat, i: nat)
    requires AllValid(recs)
  {
    && k <= i <= |recs|
    && (i < |recs| ==> !recs[i].defunct && recs[i].name == name && !Exhausted(recs[i]))
    && forall m | k <= m < i && !recs[m].defunct && recs[m].name == name :: Exhausted(recs[m])
  }

  /** There are pairs from the next index on, and all are DISABLED. */
  predicate Exhausted(r: Rec)
    requires r.Valid()
  {
    var n := (r.inx + 1) % 65536;
    n < |r.keys| && forall j | n <= j < |r.keys| :: r.states[j].Disabled?
  }

  /** The answer of Iter_next. */
  lemma {:induction false} NextFromIs(recs: seq<Rec>, name: string, k: nat, i: nat)
    requires AllValid(recs) && NextEndsAt(recs, name, k, i)
    ensures NextFrom(recs, name, k).0
         == if i == |recs| then Answer(InvalidKvs, "", "")
            else
              var n := (recs[i].inx + 1) % 65536;
              if n >= |recs[i].keys| then Answer(Success, "", "")
              else var j := NextEnabled(recs[i].states, n); Answer(Success, recs[i].keys[j], recs[i].values[j])
    decreases |recs| - k
  {
    hide NextEnabled;
    if k < i {
      var later := if Live(recs[k], name) then WithIndex(recs, k, (recs[k].inx + 1) % 65536) else recs;
      NextSkips(recs, later, name, k, i);
      NextFromIs(later, name, k + 1, i);
    }
  }

  /** The indices it leaves. */
  lemma {:induction false} NextIndicesAre(recs: seq<Rec>, name: string, k: nat, i: nat)
    requires AllValid(recs) && NextEndsAt(recs, name, k, i)
    ensures var r := NextFrom(recs, name, k).1;
            && |r| == |recs|
            && forall m | 0 <= m < |recs| ::
                 r[m] == recs[m].(inx := if m < k || m > i || recs[m].defunct || recs[m].name != name then recs[m].inx
                                         else
                                           var n := (recs[m].inx + 1) % 65536;
                                           if m < i || n >= |recs[m].keys| then n
                                           else NextEnabled(recs[m].states, n) % 65536)
    decreases |recs| - k
  {
    hide NextEnabled;
    if k < i {
      var later := if Live(recs[k], name) then WithIndex(recs, k, (recs[k].inx + 1) % 65536) else recs;
      NextSkips(recs, later, name, k, i);
      NextIndicesAre(later, name, k + 1, i);
    }
  }

  lemma NextSkips(recs: seq<Rec>, later: seq<Rec>, name: string, k: nat, i: nat)
    requires AllValid(recs) && k < i && NextEndsAt(recs, name, k, i)
    requires later == if Live(recs[k], name) then WithIndex(recs, k, (recs[k].inx + 1) % 65536) else recs
    ensures NextFrom(recs, name, k) == NextFrom(later, name, k + 1)
    ensures NextEndsAt(later, name, k + 1, i)
    ensures forall m | 0 <= m < |recs| && m != k :: later[m] == recs[m]
  {
  }

  // ---- leaving the record -------------------------------------------------

  /** Searching from record k on, record i is reached and read to its end and on. */
  ghost predicate LeavesAt(recs: seq<Rec>, name: string, k: nat, i: nat)
    requires i < |recs|
  {
    && Live(recs[i], name) && i < |recs[i].keys| && AllDisabled(recs[i])
    && forall m | k <= m < i && Live(recs[m], name) :: 0 < |recs[m].keys| <= m
  }

  ghost predicate LeavesFrom(recs: seq<Rec>, name: string, k: nat) {
    exists i | k <= i < |recs| :: LeavesAt(recs, name, k, i)
  }

  /** The search goes on from record k, whose index it may have reset. */
  lemma LeavesLater(recs: seq<Rec>, later: seq<Rec>, name: string, k: nat, l: nat)
    requires k < |recs| && l == k + 1 && (later == recs || later == WithIndex(recs, k, 0))
    requires Live(recs[k], name) ==> 0 < |recs[k].keys| <= k
    ensures LeavesFrom(recs, name, k) <==> LeavesFrom(later, name, l)
  {
    forall i | l <= i < |recs|
      ensures LeavesAt(recs, name, k, i) <==> LeavesAt(later, name, l, i)
    {
      assert forall m | l <= m < |recs| :: Live(recs[m], name) == Live(later[m], name);
      if LeavesAt(later, name, l, i) {
        forall m | k <= m < i && Live(recs[m], name)
          ensures 0 < |recs[m].keys| <= m
        {
          assert m > k ==> later[m] == recs[m];
        }
      }
    }
    if LeavesFrom(recs, name, k) {
      var i :| k <= i < |recs| && LeavesAt(recs, name, k, i);
      assert LeavesAt(later, name, l, i);
    }
    if LeavesFrom(later, name, l) {
      var i :| l <= i < |recs| && LeavesAt(later, name, l, i);
      assert LeavesAt(recs, name, k, i);
    }
  }

  lemma {:induction false} LeavesFromIff(recs: seq<Rec>, name: string, k: nat)
    requires AllValid(recs) && k <= |recs|
    ensures FirstFrom(recs, name, k).0.LeftRecord? <==> LeavesFrom(recs, name, k)
    decreases |recs| - k
  {
    if k < |recs| {
      var r := recs[k];
      if !Live(r, name) || 0 < |r.keys| <= k {
        var later := if Live(r, name) then WithIndex(recs, k, 0) else recs;
        LeavesFromIff(later, name, k + 1);
        LeavesLater(recs, later, name, k, k + 1);
      } else if |r.keys| > 0 && NextEnabled(r.states, 0) == |r.keys| {
        assert LeavesAt(recs, name, k, k);
      }
    }
  }

  /** Iter_first reads behind the arrays of a record if and only if it comes to a
      live record of that name whose index is below its number of pairs and whose
      pairs are all DISABLED; it goes on from a record only if that has pairs, but
      no more than its index. */
  lemma LeavesRecordIff(recs: seq<Rec>, name: string)
    requires AllValid(recs)
    ensures FirstFrom(recs, name, 0).0.LeftRecord? <==> exists i | 0 <= i < |recs| :: LeavesAt(recs, name, 0, i)
  {
    LeavesFromIff(recs, name, 0);
  }

  // ---- a name with one live record ----------------------------------------

  /** Iter_first on the only live record of a name, with the index i. */
  function First(r: Rec, i: nat): (Answer, nat)
    requires r.Valid()
  {
    var j := NextEnabled(r.states, 0);
    if |r.keys| == 0 then (EMPTY, 0)
    else if i >= |r.keys| then (NO_KVS, 0)
    else if j < |r.keys| then (PairAt(r, j), j % UINT16)
    else (LeftRecord, 0)
  }

  function Next(r: Rec): (Answer, nat)
    requires r.Valid()
  {
    var n := (r.inx + 1) % UINT16;
    if n >= |r.keys| then (EMPTY, n)
    else
      var j := NextEnabled(r.states, n);
      if j < |r.keys| then (PairAt(r, j), j % UINT16) else (NO_KVS, n)
  }

  lemma {:induction false} NoneLive(recs: seq<Rec>, name: string, k: nat, i: nat)
    requires AllValid(recs) && k <= i <= |recs| && forall m | k <= m < i :: !Live(recs[m], name)
    ensures FirstFrom(recs, name, k) == FirstFrom(recs, name, i)
    ensures NextFrom(recs, name, k) == NextFrom(recs, name, i)
    decreases i - k
  {
    if k < i { NoneLive(recs, name, k + 1, i); }
  }

  lemma OnlyLiveRecord(recs: seq<Rec>, name: string, i: nat)
    requires AllValid(recs) && OnlyLive(recs, name, i)
    ensures FirstFrom(recs, name, 0) == (First(recs[i], i).0, WithIndex(recs, i, First(recs[i], i).1))
    ensures NextFrom(recs, name, 0) == (Next(recs[i]).0, WithIndex(recs, i, Next(recs[i]).1))
  {
    NoneLive(recs, name, 0, i);
    NoneLive(WithIndex(recs, i, 0), name, i + 1, |recs|);
    NoneLive(WithIndex(recs, i, (recs[i].inx + 1) % UINT16), name, i + 1, |recs|);
  }

  class Iterator {
    var recs: seq<Rec>

    constructor (r: seq<Rec>)
      ensures recs == r
    {
      recs := r;
    }

    method IterFirst(name: string) returns (a: Answer)
      requires AllValid(recs)
      modifies this
      ensures AllValid(recs)
      ensures (a, recs) == if |name| > 256 then (Answer(InvalidKvs, "", ""), old(recs))
                          else FirstFrom(old(recs), name, 0)
    {
      a := NO_KVS;
      if |name| > PMI_MAX_KVSNAME_LEN {
        return;
      }
      var i := 0;
      while i < |recs|
        invariant 0 <= i <= |recs| && AllValid(recs)
        invariant FirstFrom(recs, name, i) == FirstFrom(old(recs), name, 0)
        decreases |recs| - i
      {
        var r := recs[i];
        if Live(r, name) {
          if |r.keys| == 0 {
            recs := WithIndex(recs, i, 0);
            a := EMPTY;
            return;
          }
          var j := 0;
          while i < |r.keys|
            invariant 0 <= j <= |r.keys| && recs[i] == r
            invariant NextEnabled(r.states, 0) == NextEnabled(r.states, j)
            decreases |r.keys| - j
          {
            if j == |r.keys| {
              recs := WithIndex(recs, i, 0);
              a := LeftRecord;
              return;
            }
            if !r.states[j].Disabled? {
              recs := WithIndex(recs, i, j % UINT16);
              a := PairAt(r, j);
              return;
            }
            j := j + 1;
          }
          recs := WithIndex(recs, i, 0);
        }
        i := i + 1;
      }
    }

    method IterNext(name: string) returns (a: Answer)
      requires AllValid(recs)
      modifies this
      ensures AllValid(recs)
      ensures (a, recs) == if |name| > 256 then (Answer(InvalidKvs, "", ""), old(recs))
                          else NextFrom(old(recs), name, 0)
    {
      a := NO_KVS;
      if |name| > PMI_MAX_KVSNAME_LEN {
        return;
      }
      var i := 0;
      while i < |recs|
        invariant 0 <= i <= |recs| && AllValid(recs)
        invariant NextFrom(recs, name, i) == NextFrom(old(recs), name, 0)
        decreases |recs| - i
      {
        var r := recs[i];
        if Live(r, name) {
          var n := (r.inx + 1) % UINT16;
          if n >= |r.keys| {
            recs := WithIndex(recs, i, n);
            a := EMPTY;
            return;
          }
          var j := n;
          while j < |r.keys| && r.states[j].Disabled?
            invariant n <= j <= |r.keys| && NextEnabled(r.states, n) == NextEnabled(r.states, j)
          {
            j := j + 1;
          }
          if j < |r.keys| {
            recs := WithIndex(recs, i, j % UINT16);
            a := PairAt(r, j);
            return;
          }
          recs := WithIndex(recs, i, n);
        }
        i := i + 1;
      }
    }

    /** The loop a caller writes: first, then next until an empty key.  It leaves
        the record if and only if the index of the record is below its number of
        pairs and all are DISABLED.  Otherwise it returns the pairs that are not
        DISABLED, once each and in order, up to the first that has an empty key, if
        the index is below the number of pairs, and nothing if it is not.  Records on
        which the loop does not end are required away; see NeverEnds. */
    method Iterate(name: string, ghost i: nat) returns (pairs: seq<(string, string)>, left: bool)
      requires |name| <= PMI_MAX_KVSNAME_LEN && AllValid(recs) && OnlyLive(recs, name, i)
      requires i < |recs[i].keys| ==> Ends(recs[i])
      modifies this
      ensures left <==> i < |old(recs)[i].keys| && AllDisabled(old(recs)[i])
      ensures !left ==> pairs == if i >= |old(recs)[i].keys| then []
                                 else EnabledPairs(old(recs)[i], Stop(old(recs)[i], 0))
      ensures !left ==> (pairs == EnabledPairs(old(recs)[i], |old(recs)[i].keys|)
                         <==> AllDisabled(old(recs)[i])
                              || (i < |old(recs)[i].keys| && Stop(old(recs)[i], 0) == |old(recs)[i].keys|))
    {
      ghost var was := recs;
      ghost var r := recs[i];
      pairs, left := [], false;
      OnlyLiveRecord(recs, name, i);
      CompleteIff(r);
      var a := IterFirst(name);
      FirstStep(r, i);
      if a.LeftRecord? {
        left := true;
        return;
      }
      ghost var inx := recs[i].inx;
      while a.key != ""
        invariant recs == was[i := r.(inx := inx)] && a.Answer?
        invariant if i < |r.keys| then Step(r, inx, pairs, a) else a.key == "" && pairs == []
        decreases a.key != "", |r.keys| - inx
      {
        pairs := pairs + [(a.key, a.value)];
        NextStep(r, inx, pairs);
        SameLive(was, recs, name, i);
        OnlyLiveRecord(recs, name, i);
        a := IterNext(name);
        inx := recs[i].inx;
      }
    }
  }

  lemma SameLive(was: seq<Rec>, recs: seq<Rec>, name: string, i: nat)
    requires OnlyLive(was, name, i) && AllValid(was) && |recs| == |was|
    requires recs == was[i := was[i].(inx := recs[i].inx)]
    ensures OnlyLive(recs, name, i) && AllValid(recs)
  {
  }

  /** A pair at which an iteration does not go on to the next: its key is empty, or it
      stands so far back that the 16-bit index wraps. */
  predicate Bars(r: Rec, p: nat)
    requires r.Valid() && p < |r.keys|
  {
    !r.states[p].Disabled? && (r.keys[p] == "" || p >= UINT16 - 1)
  }

  /** The first such position from j on; the number of pairs if there is none. */
  function Stop(r: Rec, j: nat): (p: nat)
    requires r.Valid() && j <= |r.keys|
    ensures j <= p <= |r.keys| && (p < |r.keys| ==> Bars(r, p))
    ensures forall q | j <= q < p :: !Bars(r, q)
    decreases |r.keys| - j
  {
    if j == |r.keys| || Bars(r, j) then j else Stop(r, j + 1)
  }

  /** The iteration comes to the end of the pairs or to an empty key. */
  predicate Ends(r: Rec) {
    r.Valid() && (Stop(r, 0) < |r.keys| ==> r.keys[Stop(r, 0)] == "")
  }

  /** Between two calls: the pair just returned is the one at the iteration index,
      or the iteration is over. */
  ghost predicate Step(r: Rec, inx: nat, pairs: seq<(string, string)>, a: Answer)
    requires r.Valid() && a.Answer?
  {
    if a.key == "" then pairs == EnabledPairs(r, Stop(r, 0))
    else
      && inx < Stop(r, 0) && !r.states[inx].Disabled? && a == PairAt(r, inx)
      && EnabledPairs(r, inx + 1) == pairs + [(a.key, a.value)]
  }

  lemma DisabledIff(r: Rec)
    requires r.Valid()
    ensures AllDisabled(r) <==> NextEnabled(r.states, 0) == |r.keys|
    ensures AllDisabled(r) <==> EnabledPairs(r, |r.keys|) == []
  {
    var j := NextEnabled(r.states, 0);
    SkipToEnabled(r, 0);
    if j < |r.keys| { EnabledIsNotEmpty(r, j); }
  }

  lemma CompleteIff(r: Rec)
    requires r.Valid()
    ensures EnabledPairs(r, Stop(r, 0)) == EnabledPairs(r, |r.keys|) <==> Stop(r, 0) == |r.keys|
    ensures [] == EnabledPairs(r, |r.keys|) <==> AllDisabled(r)
    ensures AllDisabled(r) ==> Stop(r, 0) == |r.keys|
  {
    DisabledIff(r);
    var p := Stop(r, 0);
    if p < |r.keys| { EnabledGrows(r, p + 1, |r.keys|); }
  }

  /** From j on, up to which nothing bars the way, the next pair that is not DISABLED
      is a step of the iteration. */
  lemma StepFrom(r: Rec, j: nat, pairs: seq<(string, string)>)
    requires Ends(r) && j <= Stop(r, 0) && j < UINT16 && EnabledPairs(r, j) == pairs
    ensures var k := NextEnabled(r.states, j);
            if k < |r.keys| then Step(r, k % UINT16, pairs, PairAt(r, k)) && (r.keys[k] != "" ==> k % UINT16 == k)
            else Stop(r, 0) == |r.keys| && pairs == EnabledPairs(r, |r.keys|)
  {
    var k := NextEnabled(r.states, j);
    SkipToEnabled(r, j);
    SkipDisabled(r, j, k);
    if k < |r.keys| {
      if Bars(r, k) {
        assert Stop(r, 0) == k;
      } else {
        assert k < Stop(r, 0);
      }
    }
  }

  lemma FirstStep(r: Rec, i: nat)
    requires r.Valid() && (i < |r.keys| ==> Ends(r))
    ensures First(r, i).0.LeftRecord? <==> i < |r.keys| && AllDisabled(r)
    ensures i < |r.keys| && !AllDisabled(r) ==> Step(r, First(r, i).1, [], First(r, i).0)
    ensures i >= |r.keys| ==> First(r, i).0.key == ""
  {
    DisabledIff(r);
    if i < |r.keys| { StepFrom(r, 0, []); }
  }

  lemma {:induction false} NextStep(r: Rec, inx: nat, pairs: seq<(string, string)>)
    requires Ends(r) && inx < Stop(r, 0) && !r.states[inx].Disabled? && EnabledPairs(r, inx + 1) == pairs
    ensures var (a, n) := Next(r.(inx := inx));
            a.Answer? && Step(r, n, pairs, a) && (a.key != "" ==> inx < n)
  {
    hide Stop, NextEnabled, EnabledPairs;
    assert !Bars(r, inx);
    assert (inx + 1) % UINT16 == inx + 1;
    StepFrom(r, inx + 1, pairs);
  }

  // ---- an iteration that does not end -------------------------------------

  /** The answer of the m-th call after Iter_first, and the index it leaves. */
  function Nth(r: Rec, i: nat, m: nat): (Answer, nat)
    requires r.Valid()
  {
    if m == 0 then First(r, i) else Next(r.(inx := Nth(r, i, m - 1).1))
  }

  /** If a pair that is not DISABLED stands at position 65535 or behind, in front of any
      empty key, the index wraps and every call returns a pair, for ever. */
  lemma {:induction false} NeverEnds(r: Rec, i: nat, m: nat)
    requires r.Valid() && i < |r.keys| && !Ends(r)
    ensures Nth(r, i, m).0.Answer? && Nth(r, i, m).0.key != "" && Nth(r, i, m).1 < UINT16
  {
    var p := Stop(r, 0);
    if m == 0 {
      FoundBefore(r, 0, p);
    } else {
      NeverEnds(r, i, m - 1);
      FoundBefore(r, (Nth(r, i, m - 1).1 + 1) % UINT16, p);
    }
  }

  /** From any 16-bit index the search comes to a pair no further than that one. */
  lemma FoundBefore(r: Rec, n: nat, p: nat)
    requires r.Valid() && !Ends(r) && p == Stop(r, 0) && n < UINT16
    ensures n < |r.keys|
    ensures var j := NextEnabled(r.states, n); j <= p && r.keys[j] != ""
  {
    assert Bars(r, p) && n <= p;
    var j := NextEnabled(r.states, n);
    assert j <= p;
    if j < p { assert !Bars(r, j); }
  }

  lemma EnabledIsNotEmpty(r: Rec, k: nat)
    requires r.Valid() && k < |r.keys| && !r.states[k].Disabled?
    ensures EnabledPairs(r, |r.keys|) != []
  {
    EnabledGrows(r, k + 1, |r.keys|);
  }

  lemma {:induction false} EnabledGrows(r: Rec, j: nat, k: nat)
    requires r.Valid() && j <= k <= |r.keys|
    ensures |EnabledPairs(r, j)| <= |EnabledPairs(r, k)|
    decreases k - j
  {
    if j < k { EnabledGrows(r, j, k - 1); }
  }

  /** A second record with a single pair: the pair is there, and Iter_first does not
      find the name. */
  lemma SecondRecordIsMissed(first: Rec, r: Rec)
    requires first.Valid() && first.name != "a" && r == Rec("a", false, 0, [Global], ["k"], ["v"])
    ensures OnlyLive([first, r], "a", 1) && EnabledPairs(r, 1) == [("k", "v")]
    ensures FirstFrom([first, r], "a", 0).0 == NO_KVS
  {
    OnlyLiveRecord([first, r], "a", 1);
    assert EnabledPairs(r, 0) == [];
  }
}
