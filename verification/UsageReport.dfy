/** The grouping of usage into report rows of cluster_report_functions.c. */
module UsageReport {
  import opened Wrappers

  /** One accounting record: an association, a TRES and the seconds it used. */
  datatype Usage = Usage(id: nat, idAlt: nat, tres: nat, secs: nat)

  /** Seconds per TRES; a TRES that is not there has none. */
  type Tres = map<nat, nat>

  /** An association, or a wckey: that has its name in the place of the account. */
  datatype Assoc = Assoc(acct: string, cluster: string, parent: string, user: Option<string>, usage: seq<Usage>)

  datatype UserRow = UserRow(name: string, acct: string, tres: Tres)

  datatype AssocRow = AssocRow(acct: string, cluster: string, parent: string, user: Option<string>,
                               id: nat, idAlt: nat, tres: Tres)

  datatype Report = Report(cluster: string, users: seq<UserRow>, assocs: seq<AssocRow>)

  /** The first two reports are about associations, the others about wckeys. */
  datatype Kind = UserByAccount | AccountByUser | UserByWckey | WckeyByUser

  function Secs(t: Tres, k: nat): nat {
    if k in t then t[k] else 0
  }

  /** slurmdb_add_accounting_to_tres_list. */
  function AddUsage(t: Tres, u: Usage): Tres {
    t[u.tres := Secs(t, u.tres) + u.secs]
  }

  /** slurmdb_transfer_acct_list_2_tres. */
  function AddAll(t: Tres, us: seq<Usage>): Tres
    decreases |us|
  {
    if us == [] then t else AddAll(AddUsage(t, us[0]), us[1..])
  }

  function Used(us: seq<Usage>, k: nat): nat {
    if us == [] then 0 else (if us[0].tres == k then us[0].secs else 0) + Used(us[1..], k)
  }

  lemma {:induction false} AddAllSecs(t: Tres, us: seq<Usage>, k: nat)
    ensures Secs(AddAll(t, us), k) == Secs(t, k) + Used(us, k)
    decreases |us|
  {
    if us != [] { AddAllSecs(AddUsage(t, us[0]), us[1..], k); }
  }

  // ---- account by user ----------------------------------------------------

  predicate RowFor(r: AssocRow, u: Usage) {
    r.id == u.id && r.idAlt == u.idAlt
  }

  /** list_find_first. */
  function FindRow(rows: seq<AssocRow>, u: Usage): (i: nat)
    ensures i <= |rows| && (i < |rows| ==> RowFor(rows[i], u))
    ensures forall k | 0 <= k < i :: !RowFor(rows[k], u)
  {
    if rows == [] || RowFor(rows[0], u) then 0
    else
      assert forall k | 1 <= k < |rows| :: rows[k] == rows[1..][k - 1];
      1 + FindRow(rows[1..], u)
  }

  function NewRow(a: Assoc, u: Usage): AssocRow {
    AssocRow(a.acct, a.cluster, a.parent, a.user, u.id, u.idAlt, map[])
  }

  /** One accounting record, always searching for its row. */
  function AddToRows(rows: seq<AssocRow>, a: Assoc, u: Usage): seq<AssocRow> {
    var i := FindRow(rows, u);
    var rows' := if i == |rows| then rows + [NewRow(a, u)] else rows;
    rows'[i := rows'[i].(tres := AddUsage(rows'[i].tres, u))]
  }

  function AddAllToRows(rows: seq<AssocRow>, a: Assoc, us: seq<Usage>): seq<AssocRow>
    decreases |us|
  {
    if us == [] then rows else AddAllToRows(AddToRows(rows, a, us[0]), a, us[1..])
  }

  /** (id, id_alt) identifies a row. */
  ghost predicate DistinctRows(rows: seq<AssocRow>) {
    forall i, j | 0 <= i < j < |rows| :: rows[i].id != rows[j].id || rows[i].idAlt != rows[j].idAlt
  }

  lemma AddToRowsDistinct(rows: seq<AssocRow>, a: Assoc, u: Usage)
    requires DistinctRows(rows)
    ensures DistinctRows(AddToRows(rows, a, u))
    ensures FindRow(rows, u) < |AddToRows(rows, a, u)| && RowFor(AddToRows(rows, a, u)[FindRow(rows, u)], u)
  {
  }

  /** With distinct rows, a row that fits is the row a search would find. */
  lemma FittingRowIsFound(rows: seq<AssocRow>, u: Usage, i: nat)
    requires DistinctRows(rows) && i < |rows| && RowFor(rows[i], u)
    ensures FindRow(rows, u) == i
  {
    assert forall k | 0 <= k < i :: !RowFor(rows[k], u);
  }

  method SearchRow(rows: seq<AssocRow>, u: Usage) returns (i: nat)
    ensures i == FindRow(rows, u)
  {
    i := 0;
    assert rows[0..] == rows;
    while i < |rows| && !RowFor(rows[i], u)
      invariant 0 <= i <= |rows|
      invariant FindRow(rows, u) == i + FindRow(rows[i..], u)
    {
      assert rows[i..][1..] == rows[i + 1..];
      i := i + 1;
    }
  }

  /** _process_au: the row of the previous record is tried first, which gives the
      same rows as searching every time. */
  method ProcessAccountByUser(rows: seq<AssocRow>, a: Assoc) returns (r: seq<AssocRow>)
    requires DistinctRows(rows)
    ensures r == AddAllToRows(rows, a, a.usage) && DistinctRows(r)
    ensures forall id, idAlt :: LabelledBy(rows, r, a, a.usage, id, idAlt)
  {
    r := rows;
    var cached: Option<nat> := None;
    var k := 0;
    assert a.usage[0..] == a.usage;
    while k < |a.usage|
      invariant 0 <= k <= |a.usage| && DistinctRows(r)
      invariant cached.Some? ==> cached.value < |r|
      invariant AddAllToRows(r, a, a.usage[k..]) == AddAllToRows(rows, a, a.usage)
    {
      var u := a.usage[k];
      assert a.usage[k..][1..] == a.usage[k + 1..];
      AddToRowsDistinct(r, a, u);
      var i: nat;
      if cached.Some? && RowFor(r[cached.value], u) {
        i := cached.value;
        FittingRowIsFound(r, u, i);
      } else {
        i := SearchRow(r, u);
        if i == |r| {
          r := r + [NewRow(a, u)];
        }
      }
      cached := Some(i);
      r := r[i := r[i].(tres := AddUsage(r[i].tres, u))];
      k := k + 1;
    }
    forall id, idAlt
      ensures LabelledBy(rows, r, a, a.usage, id, idAlt)
    {
      RowsAreLabelled(rows, a, a.usage, id, idAlt);
    }
  }

  function AssocTres(rows: seq<AssocRow>): (ts: seq<Tres>)
    ensures |ts| == |rows|
  {
    seq(|rows|, i requires 0 <= i < |rows| => rows[i].tres)
  }

  /** Seconds of TRES k over several rows. */
  function Total(ts: seq<Tres>, k: nat): nat {
    if ts == [] then 0 else Secs(ts[0], k) + Total(ts[1..], k)
  }

  lemma {:induction false} TotalUpdate(ts: seq<Tres>, i: nat, t: Tres, k: nat)
    requires i < |ts|
    ensures Total(ts[i := t], k) == Total(ts, k) - Secs(ts[i], k) + Secs(t, k)
  {
    if i > 0 {
      TotalUpdate(ts[1..], i - 1, t, k);
      assert ts[i := t][1..] == ts[1..][i - 1 := t];
    } else {
      assert ts[0 := t][1..] == ts[1..];
    }
  }

  lemma {:induction false} TotalAppend(ts: seq<Tres>, t: Tres, k: nat)
    ensures Total(ts + [t], k) == Total(ts, k) + Secs(t, k)
  {
    if ts == [] {
      assert ts + [t] == [t] && [t][1..] == [];
    } else {
      TotalAppend(ts[1..], t, k);
      assert (ts + [t])[1..] == ts[1..] + [t];
    }
  }

  lemma OneRecordConserves(rows: seq<AssocRow>, a: Assoc, u: Usage, k: nat)
    ensures Total(AssocTres(AddToRows(rows, a, u)), k) == Total(AssocTres(rows), k) + Used([u], k)
  {
    var i := FindRow(rows, u);
    var rows' := if i == |rows| then rows + [NewRow(a, u)] else rows;
    var t := AddUsage(rows'[i].tres, u);
    TotalAppend(AssocTres(rows), map[], k);
    assert i == |rows| ==> AssocTres(rows') == AssocTres(rows) + [map[]];
    TotalUpdate(AssocTres(rows'), i, t, k);
    assert AssocTres(AddToRows(rows, a, u)) == AssocTres(rows')[i := t];
    assert [u][1..] == [];
  }

  lemma {:induction false} RowsConserve(rows: seq<AssocRow>, a: Assoc, us: seq<Usage>, k: nat)
    ensures Total(AssocTres(AddAllToRows(rows, a, us)), k) == Total(AssocTres(rows), k) + Used(us, k)
    decreases |us|
  {
    if us != [] {
      OneRecordConserves(rows, a, us[0], k);
      assert [us[0]][1..] == [];
      RowsConserve(AddToRows(rows, a, us[0]), a, us[1..], k);
    }
  }

  /** Seconds of TRES k that the records of one (id, id_alt) used. */
  function UsedBy(us: seq<Usage>, id: nat, idAlt: nat, k: nat): nat {
    if us == [] then 0
    else
      (if us[0].id == id && us[0].idAlt == idAlt && us[0].tres == k then us[0].secs else 0)
      + UsedBy(us[1..], id, idAlt, k)
  }

  /** What the report says for one (id, id_alt). */
  function Charged(rows: seq<AssocRow>, id: nat, idAlt: nat, k: nat): nat {
    var i := FindRow(rows, Usage(id, idAlt, 0, 0));
    if i < |rows| then Secs(rows[i].tres, k) else 0
  }

  /** Row by row: every row gains exactly what its own records used. */
  lemma {:induction false} RowIsSumOfRecords(rows: seq<AssocRow>, a: Assoc, us: seq<Usage>, id: nat, idAlt: nat, k: nat)
    ensures Charged(AddAllToRows(rows, a, us), id, idAlt, k) == Charged(rows, id, idAlt, k) + UsedBy(us, id, idAlt, k)
    decreases |us|
  {
    if us != [] {
      OneRecordCharged(rows, a, us[0], id, idAlt, k);
      RowIsSumOfRecords(AddToRows(rows, a, us[0]), a, us[1..], id, idAlt, k);
    }
  }

  lemma OneRecordCharged(rows: seq<AssocRow>, a: Assoc, u: Usage, id: nat, idAlt: nat, k: nat)
    ensures Charged(AddToRows(rows, a, u), id, idAlt, k)
         == Charged(rows, id, idAlt, k) + if u.id == id && u.idAlt == idAlt && u.tres == k then u.secs else 0
  {
    var rows', q, i := AddToRows(rows, a, u), Usage(id, idAlt, 0, 0), FindRow(rows, u);
    if RowFor(rows'[i], q) {
      FindRowAt(rows', q, i);
      FindRowAt(rows, q, i);
    } else if FindRow(rows, q) < |rows| {
      FindRowAt(rows', q, FindRow(rows, q));
    } else {
      FindRowAt(rows', q, |rows'|);
    }
  }

  lemma FindRowAt(rows: seq<AssocRow>, q: Usage, i: nat)
    requires i <= |rows| && (i < |rows| ==> RowFor(rows[i], q))
    requires forall k | 0 <= k < i :: !RowFor(rows[k], q)
    ensures FindRow(rows, q) == i
  {
    assert FindRow(rows, q) >= i;
  }

  // ---- the labels of the rows ---------------------------------------------

  /** Where the row of an (id, id_alt) is, and the row without its usage. */
  function LabelOf(rows: seq<AssocRow>, id: nat, idAlt: nat): Option<(nat, AssocRow)> {
    var i := FindRow(rows, Usage(id, idAlt, 0, 0));
    if i < |rows| then Some((i, rows[i].(tres := map[]))) else None
  }

  predicate Uses(us: seq<Usage>, id: nat, idAlt: nat) {
    exists j | 0 <= j < |us| :: us[j].id == id && us[j].idAlt == idAlt
  }

  /** Rows that were there keep their place and label; new ones come behind them, one for
      every other (id, id_alt) of the records, with the names of the entry. */
  ghost predicate LabelledBy(rows: seq<AssocRow>, r: seq<AssocRow>, a: Assoc, us: seq<Usage>, id: nat, idAlt: nat) {
    match LabelOf(rows, id, idAlt)
    case Some(l) => LabelOf(r, id, idAlt) == Some(l)
    case None =>
      if !Uses(us, id, idAlt) then LabelOf(r, id, idAlt) == None
      else
        match LabelOf(r, id, idAlt)
        case None => false
        case Some((i, row)) =>
          i >= |rows| && row == AssocRow(a.acct, a.cluster, a.parent, a.user, id, idAlt, map[])
  }

  lemma OneRecordLabels(rows: seq<AssocRow>, a: Assoc, u: Usage, id: nat, idAlt: nat)
    ensures LabelledBy(rows, AddToRows(rows, a, u), a, [u], id, idAlt)
    ensures |rows| <= |AddToRows(rows, a, u)|
  {
    var rows', q, i := AddToRows(rows, a, u), Usage(id, idAlt, 0, 0), FindRow(rows, u);
    assert Uses([u], id, idAlt) <==> [u][0].id == id && [u][0].idAlt == idAlt;
    if RowFor(rows'[i], q) {
      FindRowAt(rows', q, i);
      FindRowAt(rows, q, i);
    } else if FindRow(rows, q) < |rows| {
      FindRowAt(rows', q, FindRow(rows, q));
    } else {
      FindRowAt(rows', q, |rows'|);
    }
  }

  lemma UsesMore(us: seq<Usage>, id: nat, idAlt: nat)
    requires us != []
    ensures Uses(us, id, idAlt) <==> Uses([us[0]], id, idAlt) || Uses(us[1..], id, idAlt)
  {
    if Uses([us[0]], id, idAlt) {
      assert us[0].id == id && us[0].idAlt == idAlt;
    }
    if Uses(us[1..], id, idAlt) {
      var j :| 0 <= j < |us[1..]| && us[1..][j].id == id && us[1..][j].idAlt == idAlt;
      assert us[j + 1].id == id && us[j + 1].idAlt == idAlt;
    }
    if Uses(us, id, idAlt) {
      var j :| 0 <= j < |us| && us[j].id == id && us[j].idAlt == idAlt;
      if j > 0 {
        assert us[1..][j - 1].id == id;
      } else {
        assert [us[0]][0].id == id;
      }
    }
  }

  lemma {:induction false} RowsAreLabelled(rows: seq<AssocRow>, a: Assoc, us: seq<Usage>, id: nat, idAlt: nat)
    ensures LabelledBy(rows, AddAllToRows(rows, a, us), a, us, id, idAlt)
    ensures |rows| <= |AddAllToRows(rows, a, us)|
    decreases |us|
  {
    if us != [] {
      OneRecordLabels(rows, a, us[0], id, idAlt);
      RowsAreLabelled(AddToRows(rows, a, us[0]), a, us[1..], id, idAlt);
      UsesMore(us, id, idAlt);
    }
  }

  // ---- user by account ----------------------------------------------------

  predicate UserRowFor(r: UserRow, user: string, acct: string) {
    r.name == user && r.acct == acct
  }

  function FindUser(users: seq<UserRow>, user: string, acct: string): (i: nat)
    ensures i <= |users| && (i < |users| ==> UserRowFor(users[i], user, acct))
    ensures forall k | 0 <= k < i :: !UserRowFor(users[k], user, acct)
  {
    if users == [] || UserRowFor(users[0], user, acct) then 0
    else
      assert forall k | 1 <= k < |users| :: users[k] == users[1..][k - 1];
      1 + FindUser(users[1..], user, acct)
  }

  /** All usage of one association goes to the row of its user and account. */
  function ChargeUser(users: seq<UserRow>, user: string, acct: string, us: seq<Usage>): seq<UserRow> {
    var i := FindUser(users, user, acct);
    var users' := if i == |users| then users + [UserRow(user, acct, map[])] else users;
    users'[i := users'[i].(tres := AddAll(users'[i].tres, us))]
  }

  ghost predicate DistinctUsers(users: seq<UserRow>) {
    forall i, j | 0 <= i < j < |users| :: users[i].name != users[j].name || users[i].acct != users[j].acct
  }

  /** _process_ua. */
  method ProcessUserByAccount(users: seq<UserRow>, user: string, a: Assoc) returns (r: seq<UserRow>)
    requires DistinctUsers(users)
    ensures r == ChargeUser(users, user, a.acct, a.usage) && DistinctUsers(r)
  {
    var i := 0;
    assert users[0..] == users;
    while i < |users| && !UserRowFor(users[i], user, a.acct)
      invariant 0 <= i <= |users|
      invariant FindUser(users, user, a.acct) == i + FindUser(users[i..], user, a.acct)
    {
      assert users[i..][1..] == users[i + 1..];
      i := i + 1;
    }
    r := users;
    if i == |users| {
      r := r + [UserRow(user, a.acct, map[])];
    }
    var tres := TransferUsage(r[i].tres, a.usage);
    r := r[i := r[i].(tres := tres)];
  }

  method TransferUsage(t: Tres, us: seq<Usage>) returns (r: Tres)
    ensures r == AddAll(t, us)
  {
    r := t;
    var k := 0;
    assert us[0..] == us;
    while k < |us|
      invariant 0 <= k <= |us|
      invariant AddAll(r, us[k..]) == AddAll(t, us)
    {
      assert us[k..][1..] == us[k + 1..];
      r := AddUsage(r, us[k]);
      k := k + 1;
    }
  }

  function UserTres(users: seq<UserRow>): (ts: seq<Tres>)
    ensures |ts| == |users|
  {
    seq(|users|, i requires 0 <= i < |users| => users[i].tres)
  }

  lemma UsersConserve(users: seq<UserRow>, user: string, acct: string, us: seq<Usage>, k: nat)
    ensures Total(UserTres(ChargeUser(users, user, acct, us)), k) == Total(UserTres(users), k) + Used(us, k)
  {
    var i := FindUser(users, user, acct);
    var users' := if i == |users| then users + [UserRow(user, acct, map[])] else users;
    var t := AddAll(users'[i].tres, us);
    AddAllSecs(users'[i].tres, us, k);
    TotalAppend(UserTres(users), map[], k);
    assert i == |users| ==> UserTres(users') == UserTres(users) + [map[]];
    TotalUpdate(UserTres(users'), i, t, k);
    assert UserTres(ChargeUser(users, user, acct, us)) == UserTres(users')[i := t];
  }

  /** What the report says for one user and account, over all rows of the two. */
  function UserCharged(users: seq<UserRow>, user: string, acct: string, k: nat): nat {
    if users == [] then 0
    else (if UserRowFor(users[0], user, acct) then Secs(users[0].tres, k) else 0)
         + UserCharged(users[1..], user, acct, k)
  }

  lemma {:induction false} UserChargedUpdate(users: seq<UserRow>, i: nat, r: UserRow,
                                             user: string, acct: string, k: nat)
    requires i < |users| && r.name == users[i].name && r.acct == users[i].acct
    ensures UserCharged(users[i := r], user, acct, k)
         == UserCharged(users, user, acct, k)
            + if UserRowFor(r, user, acct) then Secs(r.tres, k) - Secs(users[i].tres, k) else 0
  {
    if i > 0 {
      UserChargedUpdate(users[1..], i - 1, r, user, acct, k);
      assert users[i := r][1..] == users[1..][i - 1 := r];
    } else {
      assert users[0 := r][1..] == users[1..];
    }
  }

  lemma {:induction false} UserChargedAppend(users: seq<UserRow>, r: UserRow, user: string, acct: string, k: nat)
    ensures UserCharged(users + [r], user, acct, k)
         == UserCharged(users, user, acct, k) + if UserRowFor(r, user, acct) then Secs(r.tres, k) else 0
  {
    if users == [] {
      assert users + [r] == [r] && [r][1..] == [];
    } else {
      UserChargedAppend(users[1..], r, user, acct, k);
      assert (users + [r])[1..] == users[1..] + [r];
    }
  }

  lemma ChargeUserCharged(users: seq<UserRow>, u: string, a: string, us: seq<Usage>, user: string, acct: string, k: nat)
    ensures UserCharged(ChargeUser(users, u, a, us), user, acct, k)
         == UserCharged(users, user, acct, k) + if u == user && a == acct then Used(us, k) else 0
  {
    var i := FindUser(users, u, a);
    var users' := if i == |users| then users + [UserRow(u, a, map[])] else users;
    UserChargedAppend(users, UserRow(u, a, map[]), user, acct, k);
    AddAllSecs(users'[i].tres, us, k);
    UserChargedUpdate(users', i, users'[i].(tres := AddAll(users'[i].tres, us)), user, acct, k);
  }

  lemma {:induction false} NoUserRow(users: seq<UserRow>, user: string, acct: string, k: nat)
    requires forall j | 0 <= j < |users| :: !UserRowFor(users[j], user, acct)
    ensures UserCharged(users, user, acct, k) == 0
  {
    if users != [] { NoUserRow(users[1..], user, acct, k); }
  }

  /** With distinct rows this is the one row of the two. */
  lemma {:induction false} UserRowIsCharged(users: seq<UserRow>, i: nat, k: nat)
    requires DistinctUsers(users) && i < |users|
    ensures UserCharged(users, users[i].name, users[i].acct, k) == Secs(users[i].tres, k)
  {
    if i > 0 {
      UserRowIsCharged(users[1..], i - 1, k);
    } else {
      NoUserRow(users[1..], users[0].name, users[0].acct, k);
    }
  }

  // ---- wckey by user ------------------------------------------------------

  predicate ParentFor(r: AssocRow, name: string) {
    r.user.None? && r.acct == name
  }

  function FindParent(rows: seq<AssocRow>, name: string): (i: nat)
    ensures i <= |rows| && (i < |rows| ==> ParentFor(rows[i], name))
    ensures forall k | 0 <= k < i :: !ParentFor(rows[k], name)
  {
    if rows == [] || ParentFor(rows[0], name) then 0
    else
      assert forall k | 1 <= k < |rows| :: rows[k] == rows[1..][k - 1];
      1 + FindParent(rows[1..], name)
  }

  function EmptyRow(name: string, user: Option<string>): AssocRow {
    AssocRow(name, "", "", user, 0, 0, map[])
  }

  /** _process_wu: the usage goes to a new row of the user and to the parent. */
  method ProcessWckeyByUser(rows: seq<AssocRow>, w: Assoc) returns (r: seq<AssocRow>)
    ensures r == ChargeWckey(rows, w)
  {
    var i := 0;
    assert rows[0..] == rows;
    while i < |rows| && !ParentFor(rows[i], w.acct)
      invariant 0 <= i <= |rows|
      invariant FindParent(rows, w.acct) == i + FindParent(rows[i..], w.acct)
    {
      assert rows[i..][1..] == rows[i + 1..];
      i := i + 1;
    }
    r := rows;
    if i == |rows| {
      r := r + [EmptyRow(w.acct, None)];
    }
    r := r + [EmptyRow(w.acct, w.user)];
    var last := |r| - 1;
    var t := TransferUsage(r[last].tres, w.usage);
    r := r[last := r[last].(tres := t)];
    t := TransferUsage(r[i].tres, w.usage);
    r := r[i := r[i].(tres := t)];
  }

  function ChargeWckey(rows: seq<AssocRow>, w: Assoc): seq<AssocRow> {
    var i := FindParent(rows, w.acct);
    var rows' := if i == |rows| then rows + [EmptyRow(w.acct, None)] else rows;
    rows'[i := rows'[i].(tres := AddAll(rows'[i].tres, w.usage))]
      + [EmptyRow(w.acct, w.user).(tres := AddAll(map[], w.usage))]
  }

  /** Seconds of TRES k in the parent row of a wckey. */
  function ParentSecs(rows: seq<AssocRow>, name: string, k: nat): nat {
    var i := FindParent(rows, name);
    if i < |rows| then Secs(rows[i].tres, k) else 0
  }

  /** The user is there, and is the one asked for, if any. */
  predicate IsUser(user: Option<string>, who: Option<string>) {
    user.Some? && (who.Some? ==> user == who)
  }

  /** Seconds of TRES k over the rows of a user of a wckey, or of all of them. */
  function UserSecs(rows: seq<AssocRow>, name: string, who: Option<string>, k: nat): nat {
    if rows == [] then 0
    else
      (if rows[0].acct == name && IsUser(rows[0].user, who) then Secs(rows[0].tres, k) else 0)
      + UserSecs(rows[1..], name, who, k)
  }

  lemma {:induction false} UserSecsOfParent(rows: seq<AssocRow>, i: nat, r: AssocRow, name: string,
                                            who: Option<string>, k: nat)
    requires i < |rows| && rows[i].user.None? && r.user.None?
    ensures UserSecs(rows[i := r], name, who, k) == UserSecs(rows, name, who, k)
  {
    if i > 0 {
      UserSecsOfParent(rows[1..], i - 1, r, name, who, k);
      assert rows[i := r][1..] == rows[1..][i - 1 := r];
    } else {
      assert rows[0 := r][1..] == rows[1..];
    }
  }

  lemma {:induction false} UserSecsAppend(rows: seq<AssocRow>, r: AssocRow, name: string, who: Option<string>, k: nat)
    ensures UserSecs(rows + [r], name, who, k)
         == UserSecs(rows, name, who, k) + if r.acct == name && IsUser(r.user, who) then Secs(r.tres, k) else 0
  {
    if rows == [] {
      assert rows + [r] == [r] && [r][1..] == [];
    } else {
      UserSecsAppend(rows[1..], r, name, who, k);
      assert (rows + [r])[1..] == rows[1..] + [r];
    }
  }

  lemma FindParentAt(rows: seq<AssocRow>, name: string, i: nat)
    requires i <= |rows| && (i < |rows| ==> ParentFor(rows[i], name))
    requires forall k | 0 <= k < i :: !ParentFor(rows[k], name)
    ensures FindParent(rows, name) == i
  {
    assert FindParent(rows, name) >= i;
  }

  lemma WckeyToParent(rows: seq<AssocRow>, w: Assoc, name: string, k: nat)
    ensures ParentSecs(ChargeWckey(rows, w), name, k)
         == ParentSecs(rows, name, k) + if name == w.acct then Used(w.usage, k) else 0
  {
    var i, r := FindParent(rows, w.acct), ChargeWckey(rows, w);
    var was := if i == |rows| then map[] else rows[i].tres;
    AddAllSecs(was, w.usage, k);
    if name == w.acct {
      FindParentAt(r, name, i);
    } else if FindParent(rows, name) < |rows| {
      FindParentAt(r, name, FindParent(rows, name));
    } else {
      FindParentAt(r, name, |r|);
    }
  }

  lemma WckeyToUser(rows: seq<AssocRow>, w: Assoc, name: string, who: Option<string>, k: nat)
    ensures UserSecs(ChargeWckey(rows, w), name, who, k)
         == UserSecs(rows, name, who, k) + if name == w.acct && IsUser(w.user, who) then Used(w.usage, k) else 0
  {
    var i := FindParent(rows, w.acct);
    var rows' := if i == |rows| then rows + [EmptyRow(w.acct, None)] else rows;
    UserSecsAppend(rows, EmptyRow(w.acct, None), name, who, k);
    var p := rows'[i].(tres := AddAll(rows'[i].tres, w.usage));
    UserSecsOfParent(rows', i, p, name, who, k);
    AddAllSecs(map[], w.usage, k);
    UserSecsAppend(rows'[i := p], EmptyRow(w.acct, w.user).(tres := AddAll(map[], w.usage)), name, who, k);
  }

  lemma WckeyTotal(rows: seq<AssocRow>, w: Assoc, k: nat)
    ensures Total(AssocTres(ChargeWckey(rows, w)), k)
         == Total(AssocTres(rows), k) + Used(w.usage, k) + Used(w.usage, k)
  {
    var i := FindParent(rows, w.acct);
    var rows' := if i == |rows| then rows + [EmptyRow(w.acct, None)] else rows;
    var t, u := AddAll(rows'[i].tres, w.usage), AddAll(map[], w.usage);
    AddAllSecs(rows'[i].tres, w.usage, k);
    AddAllSecs(map[], w.usage, k);
    TotalAppend(AssocTres(rows), map[], k);
    assert i == |rows| ==> AssocTres(rows') == AssocTres(rows) + [map[]];
    TotalUpdate(AssocTres(rows'), i, t, k);
    TotalAppend(AssocTres(rows')[i := t], u, k);
    assert AssocTres(ChargeWckey(rows, w)) == AssocTres(rows')[i := t] + [u];
  }

  // ---- one cluster --------------------------------------------------------

  /** Entries without usage, and without a user in a report by user, are dropped
      from the list unseen. */
  predicate Reportable(a: Assoc, kind: Kind) {
    a.usage != [] && (kind.UserByAccount? || kind.UserByWckey? ==> a.user.Some?)
  }

  function Charge(rep: Report, a: Assoc, kind: Kind): Report
    requires Reportable(a, kind)
  {
    match kind
    case UserByAccount => rep.(users := ChargeUser(rep.users, a.user.value, a.acct, a.usage))
    case AccountByUser => rep.(assocs := AddAllToRows(rep.assocs, a, a.usage))
    case UserByWckey => rep.(users := rep.users + [UserRow(a.user.value, a.acct, AddAll(map[], a.usage))])
    case WckeyByUser => rep.(assocs := ChargeWckey(rep.assocs, a))
  }

  function ChargeAll(rep: Report, list: seq<Assoc>, name: string, kind: Kind): Report
    decreases |list|
  {
    if list == [] then rep
    else if Reportable(list[0], kind) && list[0].cluster == name then
      ChargeAll(Charge(rep, list[0], kind), list[1..], name, kind)
    else ChargeAll(rep, list[1..], name, kind)
  }

  /** What is left for the clusters that follow. */
  function Kept(list: seq<Assoc>, name: string, kind: Kind): seq<Assoc> {
    if list == [] then []
    else
      (if Reportable(list[0], kind) && list[0].cluster != name then [list[0]] else []) + Kept(list[1..], name, kind)
  }

  /** In the reports about associations, rows are told apart by what they are for. */
  ghost predicate DistinctReport(rep: Report, kind: Kind) {
    (kind.AccountByUser? ==> DistinctRows(rep.assocs)) && (kind.UserByAccount? ==> DistinctUsers(rep.users))
  }

  /** The state of the walk: k associations of `left` are passed over for good. */
  ghost predicate Walking(rep: Report, list: seq<Assoc>, name: string, kind: Kind,
                          r: Report, left: seq<Assoc>, k: nat)
  {
    && k <= |left| && DistinctReport(r, kind)
    && ChargeAll(r, left[k..], name, kind) == ChargeAll(rep, list, name, kind)
    && left[..k] + Kept(left[k..], name, kind) == Kept(list, name, kind)
  }

  lemma WalkOn(rep: Report, list: seq<Assoc>, name: string, kind: Kind, r: Report, left: seq<Assoc>, k: nat)
    requires Walking(rep, list, name, kind, r, left, k) && k < |left|
    requires Reportable(left[k], kind) && left[k].cluster != name
    ensures Walking(rep, list, name, kind, r, left, k + 1)
  {
    assert left[k..][1..] == left[k + 1..];
    assert left[..k + 1] == left[..k] + [left[k]];
    assert left[..k] + ([left[k]] + Kept(left[k + 1..], name, kind)) == left[..k + 1] + Kept(left[k + 1..], name, kind);
  }

  lemma DeleteItem(rep: Report, list: seq<Assoc>, name: string, kind: Kind,
                   r: Report, r': Report, left: seq<Assoc>, k: nat)
    requires Walking(rep, list, name, kind, r, left, k) && k < |left| && DistinctReport(r', kind)
    requires if Reportable(left[k], kind) then left[k].cluster == name && r' == Charge(r, left[k], kind) else r' == r
    ensures Walking(rep, list, name, kind, r', left[..k] + left[k + 1..], k)
  {
    var left' := left[..k] + left[k + 1..];
    assert left[k..][1..] == left[k + 1..] == left'[k..] && left'[..k] == left[..k];
  }

  /** _process_assoc_type and _process_wckey_type: the list is walked once, and an
      entry is deleted from it when it is charged or cannot be. */
  method ProcessAssocs(rep: Report, list: seq<Assoc>, name: string, kind: Kind) returns (r: Report, left: seq<Assoc>)
    requires DistinctReport(rep, kind)
    ensures r == ChargeAll(rep, list, name, kind) && DistinctReport(r, kind)
    ensures left == Kept(list, name, kind)
  {
    r, left := rep, list;
    var k := 0;
    assert list[0..] == list && list[..0] + Kept(list, name, kind) == Kept(list, name, kind);
    while k < |left|
      invariant Walking(rep, list, name, kind, r, left, k)
      decreases |left| - k
    {
      var a := left[k];
      if Reportable(a, kind) && a.cluster != name {
        WalkOn(rep, list, name, kind, r, left, k);
        k := k + 1;
      } else {
        var r' := r;
        if Reportable(a, kind) {
          r' := ProcessOne(r, a, kind);
        }
        DeleteItem(rep, list, name, kind, r, r', left, k);
        r, left := r', left[..k] + left[k + 1..];
      }
    }
    assert left[..k] == left && left + [] == left;
  }

  method ProcessOne(rep: Report, a: Assoc, kind: Kind) returns (r: Report)
    requires Reportable(a, kind) && DistinctReport(rep, kind)
    ensures r == Charge(rep, a, kind) && DistinctReport(r, kind)
  {
    match kind
    case UserByAccount =>
      var users := ProcessUserByAccount(rep.users, a.user.value, a);
      r := rep.(users := users);
    case AccountByUser =>
      var rows := ProcessAccountByUser(rep.assocs, a);
      r := rep.(assocs := rows);
    case UserByWckey =>
      var tres := TransferUsage(map[], a.usage);
      r := rep.(users := rep.users + [UserRow(a.user.value, a.acct, tres)]);
    case WckeyByUser =>
      var rows := ProcessWckeyByUser(rep.assocs, a);
      r := rep.(assocs := rows);
  }

  // ---- what a finished report holds ---------------------------------------

  /** A part of a report: all rows, the row of an (id, id_alt), the rows of a user
      and account or wckey, the parent row of a wckey, or the rows of all its users or
      of one. */
  datatype Share =
    | Everything
    | OfAssoc(id: nat, idAlt: nat)
    | OfUser(user: string, acct: string)
    | OfParent(wckey: string)
    | OfUsers(wckey: string, who: Option<string>)

  /** The shares that a kind of report has. */
  predicate Has(kind: Kind, share: Share) {
    match share
    case Everything => true
    case OfAssoc(_, _) => kind.AccountByUser?
    case OfUser(_, _) => kind.UserByAccount? || kind.UserByWckey?
    case OfParent(_) => kind.WckeyByUser?
    case OfUsers(_, _) => kind.WckeyByUser?
  }

  /** Seconds of TRES k that the share of the report holds. */
  function Held(rep: Report, share: Share, k: nat): nat {
    match share
    case Everything => Total(AssocTres(rep.assocs), k) + Total(UserTres(rep.users), k)
    case OfAssoc(id, idAlt) => Charged(rep.assocs, id, idAlt, k)
    case OfUser(user, acct) => UserCharged(rep.users, user, acct, k)
    case OfParent(wckey) => ParentSecs(rep.assocs, wckey, k)
    case OfUsers(wckey, who) => UserSecs(rep.assocs, wckey, who, k)
  }

  /** What an entry contributes to the share: nothing to a report by user if it has no
      user.  A wckey counts twice in all rows of its report: for its user and for the
      parent. */
  function Part(a: Assoc, kind: Kind, share: Share, k: nat): nat {
    if (kind.UserByAccount? || kind.UserByWckey?) && a.user == None then 0
    else
      match share
      case Everything => Used(a.usage, k) + if kind.WckeyByUser? then Used(a.usage, k) else 0
      case OfAssoc(id, idAlt) => UsedBy(a.usage, id, idAlt, k)
      case OfUser(user, acct) => if a.user == Some(user) && a.acct == acct then Used(a.usage, k) else 0
      case OfParent(wckey) => if a.acct == wckey then Used(a.usage, k) else 0
      case OfUsers(wckey, who) => if a.acct == wckey && IsUser(a.user, who) then Used(a.usage, k) else 0
  }

  /** What all entries on this cluster contribute to the share. */
  function Owed(list: seq<Assoc>, name: string, kind: Kind, share: Share, k: nat): nat {
    if list == [] then 0
    else
      (if list[0].cluster == name then Part(list[0], kind, share, k) else 0) + Owed(list[1..], name, kind, share, k)
  }

  /** What is dropped unseen contributes nothing. */
  lemma DroppedIsNothing(a: Assoc, kind: Kind, share: Share, k: nat)
    requires !Reportable(a, kind)
    ensures Part(a, kind, share, k) == 0
  {
    if a.usage == [] { assert Used([], k) == 0; }
  }

  lemma ChargeHeld(rep: Report, a: Assoc, kind: Kind, share: Share, k: nat)
    requires Reportable(a, kind) && Has(kind, share)
    ensures Held(Charge(rep, a, kind), share, k) == Held(rep, share, k) + Part(a, kind, share, k)
  {
    match kind
    case UserByAccount =>
      if share.Everything? { UsersConserve(rep.users, a.user.value, a.acct, a.usage, k); }
      else { ChargeUserCharged(rep.users, a.user.value, a.acct, a.usage, share.user, share.acct, k); }
    case AccountByUser =>
      if share.Everything? { RowsConserve(rep.assocs, a, a.usage, k); }
      else { RowIsSumOfRecords(rep.assocs, a, a.usage, share.id, share.idAlt, k); }
    case UserByWckey =>
      var row := UserRow(a.user.value, a.acct, AddAll(map[], a.usage));
      AddAllSecs(map[], a.usage, k);
      if share.Everything? {
        TotalAppend(UserTres(rep.users), row.tres, k);
        assert UserTres(rep.users + [row]) == UserTres(rep.users) + [row.tres];
      } else {
        UserChargedAppend(rep.users, row, share.user, share.acct, k);
      }
    case WckeyByUser =>
      match share
      case Everything => WckeyTotal(rep.assocs, a, k);
      case OfParent(wckey) => WckeyToParent(rep.assocs, a, wckey, k);
      case OfUsers(wckey, who) => WckeyToUser(rep.assocs, a, wckey, who, k);
  }

  lemma {:induction false} ChargeConserves(rep: Report, list: seq<Assoc>, name: string, kind: Kind,
                                           share: Share, k: nat)
    requires Has(kind, share)
    ensures Held(ChargeAll(rep, list, name, kind), share, k) == Held(rep, share, k) + Owed(list, name, kind, share, k)
    ensures ChargeAll(rep, list, name, kind).cluster == rep.cluster
    decreases |list|
  {
    if list != [] {
      var a := list[0];
      if Reportable(a, kind) && a.cluster == name {
        ChargeHeld(rep, a, kind, share, k);
        ChargeConserves(Charge(rep, a, kind), list[1..], name, kind, share, k);
      } else {
        ChargeConserves(rep, list[1..], name, kind, share, k);
        if !Reportable(a, kind) { DroppedIsNothing(a, kind, share, k); }
      }
    }
  }

  /** A cluster takes its own entries off the list and no others. */
  lemma {:induction false} KeptOwes(list: seq<Assoc>, name: string, other: string, kind: Kind, share: Share, k: nat)
    ensures Owed(Kept(list, name, kind), other, kind, share, k)
         == if other == name then 0 else Owed(list, other, kind, share, k)
  {
    hide Part, Reportable;
    if list != [] {
      KeptOwes(list[1..], name, other, kind, share, k);
      OwedCons(list[0], Kept(list[1..], name, kind), other, kind, share, k);
      if !Reportable(list[0], kind) { DroppedIsNothing(list[0], kind, share, k); }
      if !(Reportable(list[0], kind) && list[0].cluster != name) {
        assert [] + Kept(list[1..], name, kind) == Kept(list[1..], name, kind);
      }
    }
  }

  lemma OwedCons(a: Assoc, list: seq<Assoc>, name: string, kind: Kind, share: Share, k: nat)
    ensures Owed([a] + list, name, kind, share, k)
         == (if a.cluster == name then Part(a, kind, share, k) else 0)
            + Owed(list, name, kind, share, k)
  {
    assert ([a] + list)[1..] == list;
  }

  // ---- all clusters -------------------------------------------------------

  /** A cluster without accounting records in the period is not reported. */
  datatype Cluster = Cluster(name: string, active: bool)

  function ReportedNames(clusters: seq<Cluster>): seq<string> {
    if clusters == [] then []
    else (if clusters[0].active then [clusters[0].name] else []) + ReportedNames(clusters[1..])
  }

  /** Each active cluster in its place, and no other. */
  lemma {:induction false} ReportedNamesAre(clusters: seq<Cluster>, c: nat)
    requires c < |clusters|
    ensures ReportedNames([]) == []
    ensures ReportedNames(clusters) == ReportedNames(clusters[..c])
                                       + (if clusters[c].active then [clusters[c].name] else [])
                                       + ReportedNames(clusters[c + 1..])
  {
    if c == 0 {
      assert clusters[..0] == [];
    } else {
      ReportedNamesAre(clusters[1..], c - 1);
      assert clusters[1..][c..] == clusters[c + 1..];
      assert clusters[..c][1..] == clusters[1..][..c - 1];
    }
  }

  function Reports(clusters: seq<Cluster>, list: seq<Assoc>, kind: Kind): seq<Report>
    decreases |clusters|
  {
    if clusters == [] then []
    else if clusters[0].active then
      [ChargeAll(Report(clusters[0].name, [], []), list, clusters[0].name, kind)]
      + Reports(clusters[1..], Kept(list, clusters[0].name, kind), kind)
    else Reports(clusters[1..], list, kind)
  }

  /** The cluster loop of _process_util_by_report. */
  method ProcessClusters(clusters: seq<Cluster>, list: seq<Assoc>, kind: Kind) returns (reports: seq<Report>)
    ensures reports == Reports(clusters, list, kind)
    ensures forall i | 0 <= i < |reports| :: DistinctReport(reports[i], kind)
  {
    reports := [];
    var left, c := list, 0;
    assert clusters[0..] == clusters;
    while c < |clusters|
      invariant 0 <= c <= |clusters|
      invariant reports + Reports(clusters[c..], left, kind) == Reports(clusters, list, kind)
      invariant forall i | 0 <= i < |reports| :: DistinctReport(reports[i], kind)
    {
      assert clusters[c..][1..] == clusters[c + 1..];
      if clusters[c].active {
        var rep, rest := ProcessAssocs(Report(clusters[c].name, [], []), left, clusters[c].name, kind);
        assert reports + ([rep] + Reports(clusters[c + 1..], rest, kind))
            == (reports + [rep]) + Reports(clusters[c + 1..], rest, kind);
        reports, left := reports + [rep], rest;
      }
      c := c + 1;
    }
  }

  /** Report conservation: every share of the report of a cluster holds exactly what
      the entries on it used, charged once, the first time its name comes up. */
  lemma {:induction false} ReportsAreExact(clusters: seq<Cluster>, list: seq<Assoc>, kind: Kind, i: nat,
                                           share: Share, k: nat)
    requires i < |ReportedNames(clusters)| && Has(kind, share)
    ensures |Reports(clusters, list, kind)| == |ReportedNames(clusters)|
    ensures Reports(clusters, list, kind)[i].cluster == ReportedNames(clusters)[i]
    ensures Held(Reports(clusters, list, kind)[i], share, k)
         == if ReportedNames(clusters)[i] in ReportedNames(clusters)[..i] then 0
            else Owed(list, ReportedNames(clusters)[i], kind, share, k)
    decreases |clusters|
  {
    var names := ReportedNames(clusters);
    var more := ReportedNames(clusters[1..]);
    if clusters[0].active {
      var name := clusters[0].name;
      assert names == [name] + more;
      ReportsCount(clusters, list, kind);
      if i == 0 {
        ChargeConserves(Report(name, [], []), list, name, kind, share, k);
      } else {
        ReportsAreExact(clusters[1..], Kept(list, name, kind), kind, i - 1, share, k);
        KeptOwes(list, name, names[i], kind, share, k);
        SeenBefore(name, more, i);
      }
    } else {
      assert names == more;
      ReportsAreExact(clusters[1..], list, kind, i, share, k);
    }
  }

  lemma SeenBefore(name: string, more: seq<string>, i: nat)
    requires 0 < i <= |more|
    ensures ([name] + more)[i] in ([name] + more)[..i] <==> more[i - 1] == name || more[i - 1] in more[..i - 1]
  {
    assert ([name] + more)[..i] == [name] + more[..i - 1];
  }

  lemma {:induction false} ReportsCount(clusters: seq<Cluster>, list: seq<Assoc>, kind: Kind)
    ensures |Reports(clusters, list, kind)| == |ReportedNames(clusters)|
    decreases |clusters|
  {
    if clusters != [] {
      ReportsCount(clusters[1..], if clusters[0].active then Kept(list, clusters[0].name, kind) else list, kind);
    }
  }

  // ---- the parent row of a wckey ------------------------------------------

  /** The entries of this wckey on the cluster that have no user used nothing. */
  ghost predicate OnlyUsersUsed(list: seq<Assoc>, name: string, wckey: string, k: nat) {
    forall i | 0 <= i < |list| && list[i].cluster == name && list[i].acct == wckey && list[i].user.None? ::
      Used(list[i].usage, k) == 0
  }

  lemma {:induction false} OwedByUsersIff(list: seq<Assoc>, name: string, wckey: string, k: nat)
    ensures Owed(list, name, WckeyByUser, OfUsers(wckey, None), k) <= Owed(list, name, WckeyByUser, OfParent(wckey), k)
    ensures Owed(list, name, WckeyByUser, OfUsers(wckey, None), k) == Owed(list, name, WckeyByUser, OfParent(wckey), k)
       <==> OnlyUsersUsed(list, name, wckey, k)
  {
    if list != [] {
      OwedByUsersIff(list[1..], name, wckey, k);
      assert list == [list[0]] + list[1..];
      assert OnlyUsersUsed(list, name, wckey, k) <==>
             OnlyUsersUsed([list[0]], name, wckey, k) && OnlyUsersUsed(list[1..], name, wckey, k);
    }
  }

  /** In the report of a cluster, the parent row of a wckey is the sum of the user
      rows of the wckey if and only if its entries without a user used nothing. */
  lemma ParentIsSumOfUsersIff(clusters: seq<Cluster>, list: seq<Assoc>, i: nat, wckey: string, k: nat)
    requires i < |ReportedNames(clusters)| && ReportedNames(clusters)[i] !in ReportedNames(clusters)[..i]
    ensures |Reports(clusters, list, WckeyByUser)| == |ReportedNames(clusters)|
    ensures var rows := Reports(clusters, list, WckeyByUser)[i].assocs;
            ParentSecs(rows, wckey, k) == UserSecs(rows, wckey, None, k)
            <==> OnlyUsersUsed(list, ReportedNames(clusters)[i], wckey, k)
  {
    ReportsAreExact(clusters, list, WckeyByUser, i, OfParent(wckey), k);
    ReportsAreExact(clusters, list, WckeyByUser, i, OfUsers(wckey, None), k);
    OwedByUsersIff(list, ReportedNames(clusters)[i], wckey, k);
  }

  /** A wckey with usage and without a user: five seconds in the parent row, and
      none in user rows. */
  lemma UsageWithoutUser()
    ensures var list := [Assoc("w", "c", "", None, [Usage(0, 0, 1, 5)])];
            var reports := Reports([Cluster("c", true)], list, WckeyByUser);
            |reports| == 1 && ParentSecs(reports[0].assocs, "w", 1) == 5
            && UserSecs(reports[0].assocs, "w", None, 1) == 0
  {
    var us := [Usage(0, 0, 1, 5)];
    var list := [Assoc("w", "c", "", None, us)];
    var clusters := [Cluster("c", true)];
    assert clusters[1..] == [] && ReportedNames(clusters) == ["c"];
    ReportsAreExact(clusters, list, WckeyByUser, 0, OfParent("w"), 1);
    ReportsAreExact(clusters, list, WckeyByUser, 0, OfUsers("w", None), 1);
    assert list[1..] == [] && us[1..] == [];
  }
}
