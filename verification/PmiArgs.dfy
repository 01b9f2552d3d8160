/** PMI_Args_to_keyval of pmi.c: a command line split into key/value pairs. */
module PmiArgs {
  import opened Wrappers

  datatype Keyval = Keyval(key: Option<string>, val: Option<string>)

  datatype Result = Pairs(list: seq<Keyval>) | InvalidArg

  predicate Dashed(arg: string) {
    arg != "" && arg[0] == '-'
  }

  /** Two neighbouring arguments both lack a leading dash. */
  predicate LoosePair(argv: seq<string>, i: nat)
    requires i + 1 < |argv|
  {
    !Dashed(argv[i]) && !Dashed(argv[i + 1])
  }

  predicate HasLoosePair(argv: seq<string>) {
    exists i :: 0 <= i && i + 1 < |argv| && LoosePair(argv, i)
  }

  function Present(o: Option<string>): seq<string> {
    if o.Some? then [o.value] else []
  }

  /** The arguments a list of pairs stands for. */
  function Flatten(list: seq<Keyval>): seq<string> {
    if list == [] then []
    else Flatten(list[..|list| - 1]) + Present(list[|list| - 1].key) + Present(list[|list| - 1].val)
  }

  /** Keys are dashed and values are not; only the first pair may lack a key, and then
      it has a value. */
  predicate Proper(list: seq<Keyval>) {
    forall j | 0 <= j < |list| ::
      && (if list[j].key.Some? then Dashed(list[j].key.value) else j == 0 && list[j].val.Some?)
      && (list[j].val.Some? ==> !Dashed(list[j].val.value))
  }

  lemma FlattenBack(list: seq<Keyval>)
    requires list != [] && Proper(list)
    ensures var kv, front := list[|list| - 1], list[..|list| - 1];
            && Proper(front) && Flatten(list) == Flatten(front) + Present(kv.key) + Present(kv.val)
            && (kv.key.None? ==> front == []) && (kv.key.Some? || kv.val.Some?)
  {
  }

  /** The last argument that a proper list stands for: its value, or its key. */
  lemma LastArgument(list: seq<Keyval>)
    requires list != [] && Proper(list)
    ensures var argv, kv := Flatten(list), list[|list| - 1];
            && argv != []
            && (kv.val.Some? <==> !Dashed(argv[|argv| - 1]))
            && argv[|argv| - 1] == (if kv.val.Some? then kv.val.value else kv.key.value)
            && (kv.val.Some? && kv.key.Some? ==> |argv| >= 2 && argv[|argv| - 2] == kv.key.value)
            && (kv.key.None? ==> |argv| == 1)
  {
    FlattenBack(list);
    var kv := list[|list| - 1];
    assert kv.key.None? ==> Flatten(list[..|list| - 1]) == [];
  }

  /** Only one proper list stands for a command line. */
  lemma {:induction false} ProperIsUnique(x: seq<Keyval>, y: seq<Keyval>)
    requires Proper(x) && Proper(y) && Flatten(x) == Flatten(y)
    ensures x == y
    decreases |x|
  {
    hide Flatten, Proper;
    if x == [] || y == [] {
      assert Flatten([]) == [] by { FlattenNothing(); }
      if x != [] { LastArgument(x); }
      if y != [] { LastArgument(y); }
    } else {
      SameLastPair(x, y);
      SameFrontPairs(x, y);
      ProperIsUnique(x[..|x| - 1], y[..|y| - 1]);
      assert x == x[..|x| - 1] + [x[|x| - 1]] && y == y[..|y| - 1] + [y[|y| - 1]];
    }
  }

  lemma FlattenNothing()
    ensures Flatten([]) == []
  {
  }

  lemma SameFrontPairs(x: seq<Keyval>, y: seq<Keyval>)
    requires x != [] && y != [] && Proper(x) && Proper(y) && Flatten(x) == Flatten(y) && x[|x| - 1] == y[|y| - 1]
    ensures Flatten(x[..|x| - 1]) == Flatten(y[..|y| - 1])
    ensures Proper(x[..|x| - 1]) && Proper(y[..|y| - 1])
  {
    FlattenBack(x);
    FlattenBack(y);
    hide Flatten, Proper, Present;
    var kv := x[|x| - 1];
    var x', y' := Flatten(x[..|x| - 1]), Flatten(y[..|y| - 1]);
    ThreeParts(x', Present(kv.key), Present(kv.val));
    ThreeParts(y', Present(kv.key), Present(kv.val));
    SameFront(x', y', Present(kv.key) + Present(kv.val));
  }

  lemma SameLastPair(x: seq<Keyval>, y: seq<Keyval>)
    requires x != [] && y != [] && Proper(x) && Proper(y) && Flatten(x) == Flatten(y)
    ensures x[|x| - 1] == y[|y| - 1]
  {
    LastArgument(x);
    LastArgument(y);
    var argv, kx, ky := Flatten(x), x[|x| - 1], y[|y| - 1];
    if kx.val.Some? && kx.key != ky.key {
      OneArgument(x);
      OneArgument(y);
      assert false;
    }
  }

  lemma OneArgument(list: seq<Keyval>)
    requires list != [] && Proper(list)
    ensures list[|list| - 1].key.Some? && list[|list| - 1].val.Some? ==> |Flatten(list)| >= 2
    ensures list[|list| - 1].key.None? ==> |Flatten(list)| == 1
  {
    LastArgument(list);
  }

  lemma ThreeParts(a: seq<string>, b: seq<string>, c: seq<string>)
    ensures a + b + c == a + (b + c)
  {
  }

  lemma SameFront(a: seq<string>, b: seq<string>, c: seq<string>)
    requires a + c == b + c
    ensures a == b
  {
    assert |a| == |b|;
    assert a == (a + c)[..|a|] && b == (b + c)[..|b|];
  }

  /** The state of the loop: the first i arguments are in the list, no two of them
      are loose, and the next one is loose only behind a loose one. */
  ghost predicate Parsed(argv: seq<string>, list: seq<Keyval>, i: nat) {
    && |list| <= i <= |argv| && Flatten(list) == argv[..i] && Proper(list)
    && (forall k :: 0 <= k && k + 1 < i ==> !LoosePair(argv, k))
    && (i < |argv| && !Dashed(argv[i]) ==> i > 0 && !Dashed(argv[i - 1]))
    && (i > 0 ==> list != [])
  }

  lemma ParseMore(argv: seq<string>, list: seq<Keyval>, i: nat, kv: Keyval, n: nat)
    requires Parsed(argv, list, i) && i < |argv| && Dashed(argv[i])
    requires kv.key == Some(argv[i])
    requires if i + 1 < |argv| && !Dashed(argv[i + 1]) then kv.val == Some(argv[i + 1]) && n == i + 2
             else kv.val == None && n == i + 1
    ensures Parsed(argv, list + [kv], n)
  {
    assert (list + [kv])[..|list|] == list;
    assert argv[..n] == argv[..i] + Present(kv.key) + Present(kv.val);
    forall k | 0 <= k && k + 1 < n
      ensures !LoosePair(argv, k)
    {
      if k + 1 >= i {
        assert k == i || k + 1 == i;
      }
    }
  }

  lemma ParseFirst(argv: seq<string>)
    requires argv != []
    ensures Dashed(argv[0]) ==> Parsed(argv, [], 0)
    ensures !Dashed(argv[0]) ==> Parsed(argv, [Keyval(None, Some(argv[0]))], 1)
  {
    var list := [Keyval(None, Some(argv[0]))];
    assert list[..0] == [] && argv[..1] == [argv[0]];
    assert Flatten(list) == Flatten([]) + Present(None) + [argv[0]];
  }

  /** Parse and print: the call fails exactly on an empty command line or a loose
      pair; otherwise its result flattens to the command line again, and fits the
      array of one pair per argument. */
  method ArgsToKeyval(argv: seq<string>) returns (r: Result)
    ensures r.InvalidArg? <==> argv == [] || HasLoosePair(argv)
    ensures r.InvalidArg? <==> argv == [] || exists i | 0 <= i < |argv| - 1 ::
                                                !("-" <= argv[i]) && !("-" <= argv[i + 1])
    ensures r.Pairs? ==> Flatten(r.list) == argv && Proper(r.list) && |r.list| <= |argv|
    ensures r.Pairs? ==> forall j | 0 <= j < |r.list| ::
                           && (r.list[j].key.Some? ==> "-" <= r.list[j].key.value)
                           && (r.list[j].val.Some? ==> !("-" <= r.list[j].val.value))
  {
    if |argv| == 0 {
      return InvalidArg;
    }
    LooseIff(argv);
    var temp, i := [], 0;
    ParseFirst(argv);
    if !Dashed(argv[0]) {
      temp, i := [Keyval(None, Some(argv[0]))], 1;
    }
    while i < |argv|
      invariant Parsed(argv, temp, i)
      decreases |argv| - i
    {
      if !Dashed(argv[i]) {
        assert LoosePair(argv, i - 1);
        return InvalidArg;
      }
      var kv, next := Keyval(Some(argv[i]), None), i + 1;
      if next < |argv| && !Dashed(argv[next]) {
        kv, next := Keyval(Some(argv[i]), Some(argv[next])), next + 1;
      }
      ParseMore(argv, temp, i, kv, next);
      temp, i := temp + [kv], next;
    }
    ParseEnd(argv, temp);
    r := Pairs(temp);
  }

  /** A dash is the first character. */
  lemma DashedIff(arg: string)
    ensures Dashed(arg) <==> "-" <= arg
  {
  }

  lemma LooseIff(argv: seq<string>)
    ensures HasLoosePair(argv) <==> exists i | 0 <= i < |argv| - 1 :: !("-" <= argv[i]) && !("-" <= argv[i + 1])
  {
    if i :| 0 <= i < |argv| - 1 && !("-" <= argv[i]) && !("-" <= argv[i + 1]) {
      assert LoosePair(argv, i);
    }
  }

  lemma ParseEnd(argv: seq<string>, list: seq<Keyval>)
    requires Parsed(argv, list, |argv|)
    ensures Flatten(list) == argv && Proper(list) && !HasLoosePair(argv)
  {
    assert argv[..|argv|] == argv;
  }
}
