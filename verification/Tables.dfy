/** The database: its tables (src/server/sql/tables.sql), views, triggers and
    functions, as a value that each statement transforms.  Timestamps count
    microseconds. */
module Tables {
  import opened Base
  import opened Uuid

  // ---- Rows and tables ----

  datatype UserRow = UserRow(id: int, apiKey: Uuid, hash: Option<string>)

  /** A row of `_msg`.  A null sender stands for root. */
  datatype Msg = Msg(
    id: int, content: string, sentAt: int,
    readAge: Option<int>, editedAge: Option<int>, deletedAge: Option<int>,
    sender: Option<int>, recipient: int)

  /** `_user` in the order a scan meets its rows, the three subtype tables, `_msg`
      in insertion order and the sequence behind `msg_id`. */
  datatype Store = Store(
    users: seq<UserRow>,
    members: map<int, string>, pros: map<int, string>, admins: set<int>,
    log: seq<Msg>, nextMsgId: int)

  const EMPTY := Store([], map[], map[], {}, [], 1)

  function Ids(users: seq<UserRow>): set<int> {
    set u | u in users :: u.id
  }

  // ---- What the declarations of the tables promise ----

  ghost predicate DistinctIds(users: seq<UserRow>) {
    forall i, j :: 0 <= i < j < |users| ==> users[i].id != users[j].id
  }

  /** Primary keys, and one subtype per user; member names are unique. */
  ghost predicate UsersPartitioned(s: Store) {
    && DistinctIds(s.users)
    && Ids(s.users) == s.members.Keys + s.pros.Keys + s.admins
    && s.members.Keys !! s.pros.Keys !! s.admins
    && (forall i, j :: i in s.members && j in s.members && s.members[i] == s.members[j] ==> i == j)
  }

  /** Foreign keys of `_msg`. */
  ghost predicate ReferencesHold(s: Store) {
    forall m :: m in s.log ==>
      (m.sender.Some? ==> m.sender.value in Ids(s.users)) && m.recipient in Ids(s.users)
  }

  ghost predicate Increasing(log: seq<Msg>) {
    forall i, j :: 0 <= i < j < |log| ==> log[i].id < log[j].id
  }

  /** Serial ids: increasing along the log and never handed out again. */
  ghost predicate SerialsIncrease(s: Store) {
    && 1 <= s.nextMsgId <= INT32_MAX + 1
    && Increasing(s.log)
    && (forall m :: m in s.log ==> 1 <= m.id < s.nextMsgId)
  }

  /** The check constraints of a row; a null makes a check pass. */
  predicate Checks(m: Msg) {
    && (m.deletedAge.Some? && m.readAge.Some? ==> m.deletedAge.value > m.readAge.value)
    && (m.deletedAge.Some? && m.editedAge.Some? ==> m.deletedAge.value > m.editedAge.value)
    && m.sender != Some(m.recipient)
  }

  ghost predicate Valid(s: Store) {
    && UsersPartitioned(s)
    && ReferencesHold(s)
    && SerialsIncrease(s)
    && forall m :: m in s.log ==> Checks(m)
  }

  // ---- Users ----

  /** Which subtype view a user is inserted or deleted through. */
  datatype Kind = AsMember(name: string) | AsPro(name: string) | AsAdmin

  /** Insert through the `member`, `pro` or `admin` view.  The view gives the user id
      no default, so it must be given; the statement is atomic. */
  function AddUser(s: Store, id: Option<int>, key: Uuid, hash: Option<string>, kind: Kind): (Store, bool) {
    if id.None? || id.value in Ids(s.users) then (s, false)
    else
      var t := s.(users := s.users + [UserRow(id.value, key, hash)]);
      match kind
      case AsMember(name) =>
        if name in s.members.Values then (s, false) else (t.(members := s.members[id.value := name]), true)
      case AsPro(name) => (t.(pros := s.pros[id.value := name]), true)
      case AsAdmin => (t.(admins := s.admins + {id.value}), true)
  }

  function NotUser(id: int): UserRow -> bool {
    (u: UserRow) => u.id != id
  }

  function NotAbout(id: int): Msg -> bool {
    (m: Msg) => m.sender != Some(id) && m.recipient != id
  }

  /** Deleting a `_user` row cascades to its subtype row and its messages. */
  function DeleteCascade(s: Store, id: int): Store {
    s.(users := Filter(s.users, NotUser(id)),
       members := s.members - {id}, pros := s.pros - {id}, admins := s.admins - {id},
       log := Filter(s.log, NotAbout(id)))
  }

  /** Delete through a subtype view: nothing happens unless the row is in it. */
  function DeleteUser(s: Store, id: int, kind: Kind): Store {
    var there := match kind
      case AsMember(_) => id in s.members
      case AsPro(_) => id in s.pros
      case AsAdmin => id in s.admins;
    if there && id in Ids(s.users) then DeleteCascade(s, id) else s
  }

  /** The `role` column of the `user` view: 0, 2 or 4 by the subtype joined; the
      outer None is an absent user, the inner one a null role. */
  function ViewRole(s: Store, id: int): Option<Option<int>> {
    if id !in Ids(s.users) then None
    else Some(
      if id in s.admins then Some(0)
      else if id in s.members then Some(2)
      else if id in s.pros then Some(4)
      else None)
  }

  // ---- Messages ----

  predicate IsLive(m: Msg) {
    m.deletedAge.None?
  }

  /** The `msg` view. */
  function Live(s: Store): seq<Msg> {
    Filter(s.log, IsLive)
  }

  /** `coalesce(user_id_sender, 0)`. */
  function SenderId(m: Msg): int {
    if m.sender.Some? then m.sender.value else 0
  }

  function NullIfRoot(id: int): Option<int> {
    if id == 0 then None else Some(id)
  }

  function FromTo(sender: int, recipient: int): Msg -> bool {
    (m: Msg) => SenderId(m) == sender && m.recipient == recipient
  }

  /** The count of live messages from `sender` to `recipient`. */
  function CountLive(s: Store, sender: int, recipient: int): nat {
    |Filter(Live(s), FromTo(sender, recipient))|
  }

  /** A live message from `sender` to `recipient` is in the log. */
  ghost predicate HasLive(s: Store, sender: int, recipient: int) {
    exists m :: m in s.log && IsLive(m) && SenderId(m) == sender && m.recipient == recipient
  }

  const HANDLED := -1
  const ERROR := 0
  const OK := 1

  /** `_insert_msg`: the new id, or HANDLED when the statement fails.  The sequence
      advances even when a constraint then refuses the row. */
  function InsertMsg(s: Store, now: int, sender: int, recipient: int, content: string): (Store, int) {
    if s.nextMsgId > INT32_MAX then (s, HANDLED)
    else
      var m := Msg(s.nextMsgId, content, now, None, None, None, NullIfRoot(sender), recipient);
      var t := s.(nextMsgId := s.nextMsgId + 1);
      if !Checks(m) || (m.sender.Some? && sender !in Ids(s.users)) || recipient !in Ids(s.users) then (t, HANDLED)
      else (t.(log := s.log + [m]), m.id)
  }

  /** `send_msg`: ERROR when the sender is blocked. */
  function SendMsg(s: Store, now: int, blocked: bool, sender: int, recipient: int, content: string): (Store, int) {
    if blocked then (s, ERROR) else InsertMsg(s, now, sender, recipient, content)
  }

  /** The row of `_msg` with this id. */
  function FindMsg(log: seq<Msg>, id: int): (r: Option<Msg>)
    ensures r.Some? ==> r.value in log && r.value.id == id
    ensures r.None? ==> forall m :: m in log ==> m.id != id
  {
    if log == [] then None
    else if log[|log| - 1].id == id then Some(log[|log| - 1])
    else
      assert log == log[..|log| - 1] + [log[|log| - 1]];
      FindMsg(log[..|log| - 1], id)
  }

  /** `_seconds_diff`: microseconds to whole seconds, halves away from zero. */
  function SecondsDiff(t1: int, t2: int): int {
    if t1 >= t2 then (t1 - t2 + 500_000) / 1_000_000 else -((t2 - t1 + 500_000) / 1_000_000)
  }

  function SetDeleted(log: seq<Msg>, id: int, age: int): (r: seq<Msg>)
    ensures |r| == |log|
    ensures forall i :: 0 <= i < |log| ==> r[i] == if log[i].id == id then log[i].(deletedAge := Some(age)) else log[i]
  {
    seq(|log|, i requires 0 <= i < |log| =>
      if log[i].id == id then log[i].(deletedAge := Some(age)) else log[i])
  }

  /** Delete through the `msg` view (`ftg_msg_delete`): the live row is marked, not
      removed.  ERROR when there is none, HANDLED when a check or the integer range
      refuses the age. */
  function RmMsg(s: Store, now: int, id: int): (Store, int) {
    match FindMsg(Live(s), id)
    case None => (s, ERROR)
    case Some(m) =>
      var age := SecondsDiff(now, m.sentAt);
      if INT32_MIN <= age <= INT32_MAX && Checks(m.(deletedAge := Some(age)))
      then (s.(log := SetDeleted(s.log, id, age)), OK)
      else (s, HANDLED)
  }

  // ---- Every statement keeps the promises ----

  lemma AddUserKeepsValid(s: Store, id: Option<int>, key: Uuid, hash: Option<string>, kind: Kind)
    requires Valid(s)
    ensures Valid(AddUser(s, id, key, hash, kind).0)
  {
  }

  /** The role code of a subtype view. */
  function Code(kind: Kind): int {
    match kind
    case AsAdmin => 0
    case AsMember(_) => 2
    case AsPro(_) => 4
  }

  /** The name a subtype table gives a user. */
  function NameOf(s: Store, id: int): Option<string> {
    if id in s.members then Some(s.members[id]) else if id in s.pros then Some(s.pros[id]) else None
  }

  /** An insert is accepted exactly when the id is given and free and a member's name
      is too.  It then stores the row last, under the role and the name of its view; a
      refused one changes nothing; no other user moves and no message does. */
  lemma AddUserRoles(s: Store, id: Option<int>, key: Uuid, hash: Option<string>, kind: Kind, other: int)
    requires Valid(s)
    ensures var (t, ok) := AddUser(s, id, key, hash, kind);
            && (ok <==> id.Some? && id.value !in Ids(s.users)
                        && (kind.AsMember? ==> forall k :: k in s.members ==> s.members[k] != kind.name))
            && (ok ==> && t.users == s.users + [UserRow(id.value, key, hash)]
                       && ViewRole(t, id.value) == Some(Some(Code(kind)))
                       && NameOf(t, id.value) == if kind.AsAdmin? then None else Some(kind.name))
            && (!ok ==> t == s)
            && (id != Some(other) ==> ViewRole(t, other) == ViewRole(s, other) && NameOf(t, other) == NameOf(s, other))
            && (t.log, t.nextMsgId) == (s.log, s.nextMsgId)
  {
  }

  lemma {:induction false} FilterKeepsOrder(log: seq<Msg>, p: Msg -> bool)
    requires Increasing(log)
    ensures Increasing(Filter(log, p))
  {
    if log != [] {
      var n := |log| - 1;
      FilterKeepsOrder(log[..n], p);
      var r := Filter(log[..n], p);
      forall m | m in r
        ensures m.id < log[n].id
      {
        assert m in log[..n];
      }
      assert Increasing(r + [log[n]]);
    }
  }

  lemma {:induction false} FilterUsersDistinct(users: seq<UserRow>, p: UserRow -> bool)
    requires DistinctIds(users)
    ensures DistinctIds(Filter(users, p))
  {
    if users != [] {
      var n := |users| - 1;
      FilterUsersDistinct(users[..n], p);
      var r := Filter(users[..n], p);
      forall u | u in r
        ensures u.id != users[n].id
      {
        assert u in users[..n];
      }
      assert DistinctIds(r + [users[n]]);
    }
  }

  lemma CascadeUsers(s: Store, id: int)
    requires UsersPartitioned(s)
    ensures UsersPartitioned(DeleteCascade(s, id))
    ensures Ids(DeleteCascade(s, id).users) == Ids(s.users) - {id}
  {
    var t := DeleteCascade(s, id);
    FilterUsersDistinct(s.users, NotUser(id));
    assert Ids(t.users) == Ids(s.users) - {id};
    assert t.members.Keys == s.members.Keys - {id} && t.pros.Keys == s.pros.Keys - {id};
  }

  lemma CascadeMessages(s: Store, id: int)
    requires Valid(s)
    ensures ReferencesHold(DeleteCascade(s, id)) && SerialsIncrease(DeleteCascade(s, id))
  {
    CascadeUsers(s, id);
    FilterKeepsOrder(s.log, NotAbout(id));
  }

  lemma DeleteUserKeepsValid(s: Store, id: int, kind: Kind)
    requires Valid(s)
    ensures Valid(DeleteUser(s, id, kind))
  {
    CascadeUsers(s, id);
    CascadeMessages(s, id);
  }

  /** `t` is `s` without one user and the messages about it; nothing else moved. */
  ghost predicate WithoutUser(s: Store, t: Store, id: int) {
    && ViewRole(t, id) == None
    && (forall u :: u in t.users <==> u in s.users && u.id != id)
    && (forall other :: other != id ==>
          ViewRole(t, other) == ViewRole(s, other) && NameOf(t, other) == NameOf(s, other))
    && (forall m :: m in t.log <==> m in s.log && m.sender != Some(id) && m.recipient != id)
    && t.nextMsgId == s.nextMsgId
  }

  lemma CascadeRemoves(s: Store, id: int)
    requires Valid(s)
    ensures WithoutUser(s, DeleteCascade(s, id), id)
  {
    CascadeUsers(s, id);
  }

  /** A delete takes place exactly when the view it goes through shows the user.  It
      then removes the user and every message about it; nothing else ever moves. */
  lemma DeleteUserRoles(s: Store, id: int, kind: Kind)
    requires Valid(s)
    ensures var t := DeleteUser(s, id, kind);
            if ViewRole(s, id) == Some(Some(Code(kind))) then WithoutUser(s, t, id) else t == s
  {
    OneSubtypePerUser(s, id);
    CascadeRemoves(s, id);
  }

  lemma InsertMsgKeepsValid(s: Store, now: int, sender: int, recipient: int, content: string)
    requires Valid(s)
    ensures Valid(InsertMsg(s, now, sender, recipient, content).0)
  {
    var (t, id) := InsertMsg(s, now, sender, recipient, content);
    if id != HANDLED {
      assert Increasing(t.log);
      assert ReferencesHold(t);
    }
  }

  /** Marking a row keeps the keys, the references and the order of the log. */
  lemma SetDeletedRow(log: seq<Msg>, id: int, age: int, r: Msg)
    requires r in SetDeleted(log, id, age)
    ensures exists m :: m in log && r == if m.id == id then m.(deletedAge := Some(age)) else m
  {
  }

  /** In a log of distinct ids, a found live row is the only row with its id. */
  lemma FoundIsOnly(s: Store, id: int, m: Msg)
    requires Increasing(s.log)
    requires m in s.log && m.id == id
    ensures forall r :: r in s.log && r.id == id ==> r == m
  {
  }

  lemma {:induction false} RowsAreCounted(rows: seq<Msg>)
    requires Increasing(rows)
    ensures |set m | m in rows| == |rows|
  {
    if rows != [] {
      var n := |rows| - 1;
      RowsAreCounted(rows[..n]);
      assert rows == rows[..n] + [rows[n]];
      assert (set m | m in rows) == (set m | m in rows[..n]) + {rows[n]};
    }
  }

  /** The count behind the send rules is the number of live rows from one user to the
      other, so it is zero exactly when there is none. */
  lemma CountIsCardinality(s: Store, sender: int, recipient: int)
    requires Valid(s)
    ensures CountLive(s, sender, recipient)
            == |set m | m in s.log && IsLive(m) && SenderId(m) == sender && m.recipient == recipient|
    ensures CountLive(s, sender, recipient) != 0 <==> HasLive(s, sender, recipient)
  {
    var rows := Filter(Live(s), FromTo(sender, recipient));
    FilterKeepsOrder(s.log, IsLive);
    FilterKeepsOrder(Live(s), FromTo(sender, recipient));
    RowsAreCounted(rows);
    forall m
      ensures m in rows <==> m in s.log && IsLive(m) && SenderId(m) == sender && m.recipient == recipient
    {
      assert m in Live(s) <==> m in s.log && IsLive(m);
    }
    assert (set m | m in s.log && IsLive(m) && SenderId(m) == sender && m.recipient == recipient)
           == set m | m in rows;
    if rows != [] {
      assert rows[0] in rows;
    }
  }

  lemma RmMsgKeepsValid(s: Store, now: int, id: int)
    requires Valid(s)
    ensures Valid(RmMsg(s, now, id).0)
  {
    var (t, st) := RmMsg(s, now, id);
    if st == OK {
      var m := FindMsg(Live(s), id).value;
      var age := SecondsDiff(now, m.sentAt);
      FoundIsOnly(s, id, m);
      forall r | r in t.log
        ensures Checks(r) && 1 <= r.id < t.nextMsgId
        ensures (r.sender.Some? ==> r.sender.value in Ids(t.users)) && r.recipient in Ids(t.users)
      {
        SetDeletedRow(s.log, id, age, r);
      }
    }
  }

  /** In a valid store the `user` view gives a role to exactly the users, and it
      names the one subtype table that holds the row. */
  lemma OneSubtypePerUser(s: Store, id: int)
    requires Valid(s)
    ensures ViewRole(s, id) in {None, Some(Some(0)), Some(Some(2)), Some(Some(4))}
    ensures ViewRole(s, id).None? <==> id !in Ids(s.users)
    ensures ViewRole(s, id) == Some(Some(0)) <==> id in s.admins
    ensures ViewRole(s, id) == Some(Some(2)) <==> id in s.members
    ensures ViewRole(s, id) == Some(Some(4)) <==> id in s.pros
  {
  }
}
