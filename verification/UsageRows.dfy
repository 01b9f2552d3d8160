/** Which rows a finished report has, and what they are labelled with. */
module UsageRows {
  import opened Wrappers
  import opened UsageReport

  // ---- one report, from the whole list ------------------------------------

  /** Entries that another cluster took off the list were none of this one. */
  lemma {:induction false} KeptCharges(rep: Report, list: seq<Assoc>, name: string, other: string, kind: Kind)
    ensures ChargeAll(rep, Kept(list, name, kind), other, kind)
         == ChargeAll(rep, if other == name then [] else list, other, kind)
    decreases |list|
  {
    if list != [] {
      var a, more := list[0], Kept(list[1..], name, kind);
      if Reportable(a, kind) && a.cluster != name {
        assert Kept(list, name, kind) == [a] + more && ([a] + more)[1..] == more;
        if a.cluster == other {
          KeptCharges(Charge(rep, a, kind), list[1..], name, other, kind);
        } else {
          KeptCharges(rep, list[1..], name, other, kind);
        }
      } else {
        assert Kept(list, name, kind) == more;
        KeptCharges(rep, list[1..], name, other, kind);
      }
    }
  }

  /** The report of a cluster is made from the whole list, the first time its name comes
      up, and is empty after that. */
  lemma {:induction false} ReportIs(clusters: seq<Cluster>, list: seq<Assoc>, kind: Kind, i: nat)
    requires i < |ReportedNames(clusters)|
    ensures |Reports(clusters, list, kind)| == |ReportedNames(clusters)|
    ensures var name := ReportedNames(clusters)[i];
            Reports(clusters, list, kind)[i]
            == ChargeAll(Report(name, [], []), if name in ReportedNames(clusters)[..i] then [] else list, name, kind)
    decreases |clusters|
  {
    var names := ReportedNames(clusters);
    var more := ReportedNames(clusters[1..]);
    ReportsCount(clusters, list, kind);
    if !clusters[0].active {
      assert names == more;
      ReportIs(clusters[1..], list, kind, i);
    } else {
      var first := clusters[0].name;
      assert names == [first] + more;
      if i > 0 {
        ReportIs(clusters[1..], Kept(list, first, kind), kind, i - 1);
        KeptCharges(Report(names[i], [], []), list, first, names[i], kind);
        SeenBefore(first, more, i);
      }
    }
  }

  // ---- account by user ----------------------------------------------------

  /** The entry is on the cluster and counts: it has records, and in a report by user a
      user. */
  predicate OnCluster(a: Assoc, name: string, kind: Kind) {
    a.cluster == name && a.usage != [] && (kind.UserByAccount? || kind.UserByWckey? ==> a.user.Some?)
  }

  /** The first entry on the cluster with a record of this (id, id_alt). */
  function FirstWith(list: seq<Assoc>, name: string, id: nat, idAlt: nat): (first: Option<Assoc>)
    ensures first == None ==>
              forall e | 0 <= e < |list| && OnCluster(list[e], name, AccountByUser) :: !Uses(list[e].usage, id, idAlt)
    ensures first.Some? ==>
              exists e | 0 <= e < |list| ::
                && list[e] == first.value && OnCluster(list[e], name, AccountByUser) && Uses(list[e].usage, id, idAlt)
                && forall d | 0 <= d < e && OnCluster(list[d], name, AccountByUser) :: !Uses(list[d].usage, id, idAlt)
  {
    if list == [] then None
    else if OnCluster(list[0], name, AccountByUser) && Uses(list[0].usage, id, idAlt) then Some(list[0])
    else
      var first := FirstWith(list[1..], name, id, idAlt);
      assert forall e | 1 <= e < |list| :: list[e] == list[1..][e - 1];
      assert first.Some? ==>
               var e :| 0 <= e < |list[1..]| && list[1..][e] == first.value
                        && OnCluster(list[1..][e], name, AccountByUser) && Uses(list[1..][e].usage, id, idAlt)
                        && forall d | 0 <= d < e && OnCluster(list[1..][d], name, AccountByUser) ::
                             !Uses(list[1..][d].usage, id, idAlt);
               list[e + 1] == first.value;
      first
  }

  /** Rows that are there keep their labels; the others are labelled by the first entry
      that uses them. */
  lemma {:induction false} ChargeLabels(rep: Report, list: seq<Assoc>, name: string, id: nat, idAlt: nat)
    ensures var was, now := LabelOf(rep.assocs, id, idAlt),
                            LabelOf(ChargeAll(rep, list, name, AccountByUser).assocs, id, idAlt);
            if was.Some? then now == was
            else
              match FirstWith(list, name, id, idAlt)
              case None => now == None
              case Some(a) =>
                now.Some? && now.value.1 == AssocRow(a.acct, a.cluster, a.parent, a.user, id, idAlt, map[])
    decreases |list|
  {
    if list != [] {
      if OnCluster(list[0], name, AccountByUser) {
        RowsAreLabelled(rep.assocs, list[0], list[0].usage, id, idAlt);
        ChargeLabels(Charge(rep, list[0], AccountByUser), list[1..], name, id, idAlt);
      } else {
        ChargeLabels(rep, list[1..], name, id, idAlt);
      }
    }
  }

  /** The rows of a finished report: one for every (id, id_alt) that some entry on the
      cluster has a record of, with the names of the first such entry. */
  lemma ReportLabels(clusters: seq<Cluster>, list: seq<Assoc>, i: nat, id: nat, idAlt: nat)
    requires i < |ReportedNames(clusters)| && ReportedNames(clusters)[i] !in ReportedNames(clusters)[..i]
    ensures |Reports(clusters, list, AccountByUser)| == |ReportedNames(clusters)|
    ensures var tag := LabelOf(Reports(clusters, list, AccountByUser)[i].assocs, id, idAlt);
            match FirstWith(list, ReportedNames(clusters)[i], id, idAlt)
            case None => tag == None
            case Some(a) =>
              tag.Some? && tag.value.1 == AssocRow(a.acct, a.cluster, a.parent, a.user, id, idAlt, map[])
  {
    var name := ReportedNames(clusters)[i];
    ReportIs(clusters, list, AccountByUser, i);
    ChargeLabels(Report(name, [], []), list, name, id, idAlt);
  }

  // ---- the reports by user ------------------------------------------------

  /** Number of rows of a user and account. */
  function UserRows(users: seq<UserRow>, user: string, acct: string): nat {
    if users == [] then 0
    else (if users[0].name == user && users[0].acct == acct then 1 else 0) + UserRows(users[1..], user, acct)
  }

  /** Number of entries on the cluster with this user and account or wckey. */
  function Entries(list: seq<Assoc>, name: string, kind: Kind, user: Option<string>, acct: string): nat {
    if list == [] then 0
    else
      (if OnCluster(list[0], name, kind) && list[0].user == user && list[0].acct == acct then 1 else 0)
      + Entries(list[1..], name, kind, user, acct)
  }

  lemma {:induction false} UserRowsAppend(users: seq<UserRow>, r: UserRow, user: string, acct: string)
    ensures UserRows(users + [r], user, acct)
         == UserRows(users, user, acct) + if r.name == user && r.acct == acct then 1 else 0
  {
    if users == [] {
      assert users + [r] == [r] && [r][1..] == [];
    } else {
      UserRowsAppend(users[1..], r, user, acct);
      assert (users + [r])[1..] == users[1..] + [r];
    }
  }

  lemma {:induction false} UserRowsUpdate(users: seq<UserRow>, i: nat, tres: Tres, user: string, acct: string)
    requires i < |users|
    ensures UserRows(users[i := users[i].(tres := tres)], user, acct) == UserRows(users, user, acct)
  {
    var r := users[i].(tres := tres);
    if i > 0 {
      UserRowsUpdate(users[1..], i - 1, tres, user, acct);
      assert users[i := r][1..] == users[1..][i - 1 := r];
    } else {
      assert users[0 := r][1..] == users[1..];
    }
  }

  lemma {:induction false} HasUserRow(users: seq<UserRow>, user: string, acct: string)
    ensures FindUser(users, user, acct) < |users| <==> UserRows(users, user, acct) > 0
  {
    if users != [] { HasUserRow(users[1..], user, acct); }
  }

  /** A user and account get one row, and only the first time. */
  lemma ChargeUserRows(users: seq<UserRow>, u: string, a: string, us: seq<Usage>, user: string, acct: string)
    ensures UserRows(ChargeUser(users, u, a, us), user, acct)
         == if u == user && a == acct && UserRows(users, user, acct) == 0 then 1 else UserRows(users, user, acct)
  {
    var i := FindUser(users, u, a);
    var users' := if i == |users| then users + [UserRow(u, a, map[])] else users;
    HasUserRow(users, u, a);
    UserRowsAppend(users, UserRow(u, a, map[]), user, acct);
    UserRowsUpdate(users', i, AddAll(users'[i].tres, us), user, acct);
  }

  lemma {:induction false} ChargeAllUserRows(rep: Report, list: seq<Assoc>, name: string, kind: Kind,
                                             user: string, acct: string)
    requires kind.UserByAccount? || kind.UserByWckey?
    ensures var was, n := UserRows(rep.users, user, acct), Entries(list, name, kind, Some(user), acct);
            UserRows(ChargeAll(rep, list, name, kind).users, user, acct)
            == if kind.UserByWckey? then was + n else if was == 0 && n > 0 then 1 else was
    decreases |list|
  {
    if list != [] {
      var a := list[0];
      if OnCluster(a, name, kind) {
        if kind.UserByAccount? {
          ChargeUserRows(rep.users, a.user.value, a.acct, a.usage, user, acct);
        } else {
          UserRowsAppend(rep.users, UserRow(a.user.value, a.acct, AddAll(map[], a.usage)), user, acct);
        }
        ChargeAllUserRows(Charge(rep, a, kind), list[1..], name, kind, user, acct);
      } else {
        ChargeAllUserRows(rep, list[1..], name, kind, user, acct);
      }
    }
  }

  /** A finished report by user has one row for every user and account of an entry on the
      cluster, or, by wckey, one for every entry. */
  lemma ReportUserRows(clusters: seq<Cluster>, list: seq<Assoc>, kind: Kind, i: nat, user: string, acct: string)
    requires kind.UserByAccount? || kind.UserByWckey?
    requires i < |ReportedNames(clusters)| && ReportedNames(clusters)[i] !in ReportedNames(clusters)[..i]
    ensures |Reports(clusters, list, kind)| == |ReportedNames(clusters)|
    ensures var n := Entries(list, ReportedNames(clusters)[i], kind, Some(user), acct);
            UserRows(Reports(clusters, list, kind)[i].users, user, acct)
            == if kind.UserByAccount? && n > 0 then 1 else n
  {
    var name := ReportedNames(clusters)[i];
    ReportIs(clusters, list, kind, i);
    ChargeAllUserRows(Report(name, [], []), list, name, kind, user, acct);
  }

  // ---- wckey by user ------------------------------------------------------

  /** Number of rows with this label. */
  function Labelled(rows: seq<AssocRow>, tag: AssocRow): nat {
    if rows == [] then 0
    else (if rows[0].(tres := tag.tres) == tag then 1 else 0) + Labelled(rows[1..], tag)
  }

  lemma {:induction false} LabelledAppend(rows: seq<AssocRow>, r: AssocRow, tag: AssocRow)
    ensures Labelled(rows + [r], tag)
         == Labelled(rows, tag) + if r.(tres := tag.tres) == tag then 1 else 0
  {
    if rows == [] {
      assert rows + [r] == [r] && [r][1..] == [];
    } else {
      LabelledAppend(rows[1..], r, tag);
      assert (rows + [r])[1..] == rows[1..] + [r];
    }
  }

  lemma {:induction false} LabelledUpdate(rows: seq<AssocRow>, i: nat, tres: Tres, tag: AssocRow)
    requires i < |rows|
    ensures Labelled(rows[i := rows[i].(tres := tres)], tag) == Labelled(rows, tag)
  {
    var r := rows[i].(tres := tres);
    if i > 0 {
      LabelledUpdate(rows[1..], i - 1, tres, tag);
      assert rows[i := r][1..] == rows[1..][i - 1 := r];
    } else {
      assert rows[0 := r][1..] == rows[1..];
    }
  }

  /** An entry adds a row for its user, and one for the wckey if that has none. */
  lemma ChargeWckeyLabels(rows: seq<AssocRow>, w: Assoc, user: Option<string>, wckey: string)
    ensures var tag := AssocRow(wckey, "", "", user, 0, 0, map[]);
            Labelled(ChargeWckey(rows, w), tag)
            == Labelled(rows, tag) + (if w.acct == wckey && w.user == user then 1 else 0)
               + (if w.acct == wckey && user == None && FindParent(rows, wckey) == |rows| then 1 else 0)
    ensures FindParent(ChargeWckey(rows, w), wckey) < |ChargeWckey(rows, w)|
       <==> FindParent(rows, wckey) < |rows| || w.acct == wckey
  {
    var tag := AssocRow(wckey, "", "", user, 0, 0, map[]);
    var i := FindParent(rows, w.acct);
    var rows' := if i == |rows| then rows + [EmptyRow(w.acct, None)] else rows;
    LabelledAppend(rows, EmptyRow(w.acct, None), tag);
    var t := AddAll(rows'[i].tres, w.usage);
    LabelledUpdate(rows', i, t, tag);
    LabelledAppend(rows'[i := rows'[i].(tres := t)], EmptyRow(w.acct, w.user).(tres := AddAll(map[], w.usage)), tag);
    ParentAfter(rows, w, wckey);
  }

  lemma ParentAfter(rows: seq<AssocRow>, w: Assoc, wckey: string)
    ensures FindParent(ChargeWckey(rows, w), wckey) < |ChargeWckey(rows, w)|
       <==> FindParent(rows, wckey) < |rows| || w.acct == wckey
  {
    var r := ChargeWckey(rows, w);
    if w.acct == wckey {
      FindParentAt(r, wckey, FindParent(rows, wckey));
    } else if FindParent(rows, wckey) < |rows| {
      FindParentAt(r, wckey, FindParent(rows, wckey));
    } else {
      FindParentAt(r, wckey, |r|);
    }
  }

  /** Some entry on the cluster has this wckey. */
  predicate Mentions(list: seq<Assoc>, name: string, wckey: string) {
    exists e | 0 <= e < |list| :: OnCluster(list[e], name, WckeyByUser) && list[e].acct == wckey
  }

  lemma MentionsMore(list: seq<Assoc>, name: string, wckey: string)
    requires list != []
    ensures Mentions(list, name, wckey)
       <==> (OnCluster(list[0], name, WckeyByUser) && list[0].acct == wckey) || Mentions(list[1..], name, wckey)
  {
    if e :| 0 <= e < |list[1..]| && OnCluster(list[1..][e], name, WckeyByUser) && list[1..][e].acct == wckey {
      assert OnCluster(list[e + 1], name, WckeyByUser) && list[e + 1].acct == wckey;
    }
    if e :| 0 <= e < |list| && OnCluster(list[e], name, WckeyByUser) && list[e].acct == wckey {
      assert e > 0 ==> OnCluster(list[1..][e - 1], name, WckeyByUser);
    }
  }

  lemma {:induction false} ChargeAllLabels(rep: Report, list: seq<Assoc>, name: string, user: Option<string>,
                                           wckey: string)
    ensures var tag := AssocRow(wckey, "", "", user, 0, 0, map[]);
            var orphan := user == None && FindParent(rep.assocs, wckey) == |rep.assocs|;
            Labelled(ChargeAll(rep, list, name, WckeyByUser).assocs, tag)
            == Labelled(rep.assocs, tag) + Entries(list, name, WckeyByUser, user, wckey)
               + (if orphan && Mentions(list, name, wckey) then 1 else 0)
    decreases |list|
  {
    if list != [] {
      var a := list[0];
      MentionsMore(list, name, wckey);
      if OnCluster(a, name, WckeyByUser) {
        ChargeWckeyLabels(rep.assocs, a, user, wckey);
        ChargeAllLabels(Charge(rep, a, WckeyByUser), list[1..], name, user, wckey);
      } else {
        ChargeAllLabels(rep, list[1..], name, user, wckey);
      }
    }
  }

  /** Rows of wckeys are labelled with nothing but wckey and user. */
  predicate PlainLabels(rows: seq<AssocRow>) {
    forall i | 0 <= i < |rows| ::
      rows[i].cluster == "" && rows[i].parent == "" && rows[i].id == 0 && rows[i].idAlt == 0
  }

  lemma {:induction false} ChargeAllPlain(rep: Report, list: seq<Assoc>, name: string)
    requires PlainLabels(rep.assocs)
    ensures PlainLabels(ChargeAll(rep, list, name, WckeyByUser).assocs)
    decreases |list|
  {
    if list != [] {
      if OnCluster(list[0], name, WckeyByUser) {
        ChargeAllPlain(Charge(rep, list[0], WckeyByUser), list[1..], name);
      } else {
        ChargeAllPlain(rep, list[1..], name);
      }
    }
  }

  /** A finished report of wckeys has a row for every entry on the cluster, with its wckey
      and its user, if any, and for every wckey one more without a user. */
  lemma ReportWckeyRows(clusters: seq<Cluster>, list: seq<Assoc>, i: nat, user: Option<string>, wckey: string)
    requires i < |ReportedNames(clusters)| && ReportedNames(clusters)[i] !in ReportedNames(clusters)[..i]
    ensures |Reports(clusters, list, WckeyByUser)| == |ReportedNames(clusters)|
    ensures var name, rows := ReportedNames(clusters)[i], Reports(clusters, list, WckeyByUser)[i].assocs;
            && PlainLabels(rows)
            && Labelled(rows, AssocRow(wckey, "", "", user, 0, 0, map[]))
               == Entries(list, name, WckeyByUser, user, wckey)
                  + (if user == None && Mentions(list, name, wckey) then 1 else 0)
  {
    var name := ReportedNames(clusters)[i];
    ReportIs(clusters, list, WckeyByUser, i);
    ChargeAllLabels(Report(name, [], []), list, name, user, wckey);
    ChargeAllPlain(Report(name, [], []), list, name);
  }
}
