/** The queue of pending commands of pmi2_api.c: ENQUEUE and SEARCH_REMOVE. */
module PendingQueue {

  /** Stands for the address of a PMI2_Command. */
  type CommandId = nat

  class Item {
    var next: Item?
    const cmd: CommandId

    constructor (c: CommandId)
      ensures cmd == c && next == null
    {
      cmd, next := c, null;
    }
  }

  /** Position of the first occurrence of c; |q| if there is none. */
  function FirstMatch(q: seq<CommandId>, c: CommandId): (k: nat)
    ensures k <= |q|
    ensures k < |q| ==> q[k] == c
    ensures forall i | 0 <= i < k :: q[i] != c
  {
    if q == [] || q[0] == c then 0
    else
      assert forall i | 1 <= i < |q| :: q[i] == q[1..][i - 1];
      1 + FirstMatch(q[1..], c)
  }

  /** What SEARCH_REMOVE leaves: its `prev` stays at the first item, so a match
      further back takes everything between along. */
  function AfterRemove(q: seq<CommandId>, c: CommandId): seq<CommandId> {
    var k := FirstMatch(q, c);
    if k == |q| then q
    else if k == 0 then q[1..]
    else q[..1] + q[k + 1..]
  }

  /** With the first match at k, everything from position 1 through k goes, or the head. */
  lemma AfterRemoveIs(q: seq<CommandId>, c: CommandId)
    ensures c !in q ==> AfterRemove(q, c) == q
    ensures forall k | 0 <= k < |q| && q[k] == c && c !in q[..k] ::
              AfterRemove(q, c) == (if k == 0 then [] else [q[0]]) + q[k + 1..]
  {
    forall k | 0 <= k < |q| && q[k] == c && c !in q[..k]
      ensures FirstMatch(q, c) == k
    {
      forall i | 0 <= i < k
        ensures q[i] != c
      {
        assert q[i] == q[..k][i];
      }
      MatchAt(q, c, k);
    }
  }

  /** What removing the first match alone would leave. */
  function WithoutFirst(q: seq<CommandId>, c: CommandId): seq<CommandId> {
    var k := FirstMatch(q, c);
    if k == |q| then q else q[..k] + q[k + 1..]
  }

  /** The removal is exact if and only if the match is among the first two. */
  lemma RemoveIsExactIff(q: seq<CommandId>, c: CommandId)
    ensures AfterRemove(q, c) == WithoutFirst(q, c) <==> FirstMatch(q, c) <= 1 || FirstMatch(q, c) == |q|
  {
    var k := FirstMatch(q, c);
    if 1 < k < |q| {
      assert |AfterRemove(q, c)| == |q| - k < |q| - 1 == |WithoutFirst(q, c)|;
    } else if k == 0 < |q| {
      assert q[..0] + q[1..] == q[1..];
    }
  }

  /** An input on which it is not. */
  lemma RemoveDropsBetween()
    ensures AfterRemove([1, 2, 3], 3) == [1]
    ensures WithoutFirst([1, 2, 3], 3) == [1, 2]
  {
    var q := [1, 2, 3];
    assert FirstMatch(q, 3) == 2 by {
      assert q[0] == 1 && q[1] == 2 && q[2] == 3;
    }
  }

  ghost function Successor(items: seq<Item>, i: nat): Item? {
    if i + 1 < |items| then items[i + 1] else null
  }

  ghost predicate Distinct(items: seq<Item>) {
    forall i, j | 0 <= i < j < |items| :: items[i] != items[j]
  }

  lemma SpliceIsDistinct(q: seq<Item>, k: nat, r: seq<Item>)
    requires Distinct(q) && 1 <= k < |q| && r == q[..1] + q[k + 1..]
    ensures Distinct(r)
    ensures forall i | 1 <= i < |r| :: q[0] != r[i] == q[i + k]
  {
  }

  function Ids(items: seq<Item>): (q: seq<CommandId>)
    ensures |q| == |items|
  {
    seq(|items|, i requires 0 <= i < |items| => items[i].cmd)
  }

  class Queue {
    var head: Item?
    var tail: Item?
    ghost var items: seq<Item>

    /** The items are linked in order, and tail is the last one that can be
        reached; head and tail are null together. */
    ghost predicate Valid()
      reads this, items
    {
      && (head == null <==> tail == null) && (head == null <==> items == [])
      && (items != [] ==> head == items[0] && tail == items[|items| - 1])
      && (forall i | 0 <= i < |items| :: items[i].next == Successor(items, i))
      && Distinct(items)
    }

    ghost function Contents(): (q: seq<CommandId>)
      reads this
    {
      Ids(items)
    }

    constructor ()
      ensures Valid() && Contents() == []
    {
      head, tail, items := null, null, [];
    }

    method Enqueue(cmd: CommandId)
      requires Valid()
      modifies this, items
      ensures Valid() && Contents() == old(Contents()) + [cmd]
      ensures fresh(set i | i in items && i !in old(items))
    {
      var pi := new Item(cmd);
      if head == null {
        head, tail := pi, pi;
      } else {
        tail.next := pi;
        tail := pi;
      }
      items := items + [pi];
    }

    method RemoveHead()
      requires Valid() && head != null
      modifies this
      ensures Valid() && items == old(items)[1..]
    {
      ghost var q := items;
      assert q[0].next == Successor(q, 0);
      head := head.next;
      if head == null {
        tail := null;
      }
      items := q[1..];
      forall i | 0 <= i < |items|
        ensures items[i].next == Successor(items, i)
      {
        assert q[i + 1].next == Successor(q, i + 1);
      }
    }

    /** Link the first item past item k. */
    method UnlinkThrough(ghost k: nat, pi: Item)
      requires Valid() && 1 <= k < |items| && pi == items[k]
      modifies this, items[0]
      ensures Valid() && items == old(items)[..1] + old(items)[k + 1..]
    {
      ghost var q := items;
      assert q[k].next == Successor(q, k);
      var prev := head;
      prev.next := pi.next;
      if prev.next == null {
        tail := prev;
      }
      items := q[..1] + q[k + 1..];
      SpliceIsDistinct(q, k, items);
      forall i | 1 <= i < |items|
        ensures items[i].next == Successor(items, i)
      {
        assert q[i + k].next == Successor(q, i + k);
      }
    }

    /** The first item behind the head that holds cmd, and its position. */
    method FindBehindHead(cmd: CommandId) returns (pi: Item?, ghost k: nat)
      requires Valid() && head != null && items[0].cmd != cmd
      ensures k == FirstMatch(Ids(items), cmd) >= 1
      ensures pi == if k < |items| then items[k] else null
    {
      assert items[0].next == Successor(items, 0);
      pi := head.next;
      k := 1;
      while pi != null && pi.cmd != cmd
        invariant 1 <= k <= |items|
        invariant pi == if k < |items| then items[k] else null
        invariant forall i | 0 <= i < k :: items[i].cmd != cmd
        decreases |items| - k
      {
        assert items[k].next == Successor(items, k);
        pi := pi.next;
        k := k + 1;
      }
      MatchAt(Ids(items), cmd, k);
    }

    method SearchRemove(cmd: CommandId) returns (found: bool)
      requires Valid() && head != null
      modifies this, items
      ensures Valid() && Contents() == AfterRemove(old(Contents()), cmd)
      ensures found <==> cmd in old(Contents())
    {
      ghost var q := Ids(items);
      if head.cmd == cmd {
        assert q[0] == cmd;
        MatchAt(q, cmd, 0);
        RemoveHead();
        found := true;
      } else {
        var pi, k := FindBehindHead(cmd);
        found := pi != null;
        if found {
          assert q[k] == cmd;
          UnlinkThrough(k, pi);
          assert Ids(items) == q[..1] + q[k + 1..];
        }
      }
    }
  }

  lemma MatchAt(q: seq<CommandId>, c: CommandId, k: nat)
    requires k <= |q| && (k < |q| ==> q[k] == c) && forall i | 0 <= i < k :: q[i] != c
    ensures FirstMatch(q, c) == k
  {
    assert FirstMatch(q, c) >= k;
  }
}
