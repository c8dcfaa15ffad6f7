/** What whois, rm, inbox and the other actions are answered, each outcome by its exact
    condition on the tables before the call, and what users added or dropped change in
    it. */
module Answers {
  import opened Base
  import opened Uuid
  import opened Constr
  import opened Tables
  import opened Inbox
  import opened Actions
  import opened Effects

  // ---- whois ----

  /** A verified user of any role learns the role and name of the user asked about: 404
      when there is none, 500 for an administrator. */
  lemma WhoisAnswers(cfg: Cfg, env: Env, s: Store, c: Constr, id: int)
    requires Valid(s) && Verify(cfg, env, s, c).Known?
    ensures var (t, r) := Evaluate(cfg, env, s, Whois(c, id));
            && t == s
            && (QUser !in env.fails ==>
                  && (id in s.members ==> r == User(id, Member, s.members[id]))
                  && (id in s.pros ==> r == User(id, Pro, s.pros[id]))
                  && (id in s.admins ==> r == ErrorResponse(Other(500)))
                  && (id !in Ids(s.users) ==> r == ErrorResponse(Other(404))))
            && (QUser in env.fails ==> r == ErrorResponse(Other(500)))
  {
    OneSubtypePerUser(s, id);
  }

  // ---- rm ----

  /** The age a row would be marked with fits 32 bits and exceeds its other ages. */
  predicate AgeFits(m: Msg, now: int) {
    var age := SecondsDiff(now, m.sentAt);
    && INT32_MIN <= age <= INT32_MAX
    && (m.readAge.Some? ==> age > m.readAge.value)
    && (m.editedAge.Some? ==> age > m.editedAge.value)
  }

  ghost predicate HasLiveRow(s: Store, id: int) {
    exists m :: m in s.log && m.id == id && IsLive(m)
  }

  ghost predicate HasMarkableRow(s: Store, id: int, now: int) {
    exists m :: m in s.log && m.id == id && IsLive(m) && AgeFits(m, now)
  }

  /** `t` is `s` with one row of the log marked with its age; nothing else moved. */
  ghost predicate Marks(s: Store, t: Store, id: int, now: int) {
    && t == s.(log := t.log) && |t.log| == |s.log|
    && forall i :: 0 <= i < |s.log| ==>
         t.log[i] == if s.log[i].id != id then s.log[i]
                     else s.log[i].(deletedAge := Some(SecondsDiff(now, s.log[i].sentAt)))
  }

  /** The database's delete: when it marks, when there is nothing to mark, when it fails. */
  lemma RmOutcome(s: Store, now: int, id: int)
    requires Valid(s)
    ensures var (t, res) := RmMsg(s, now, id);
            && res in {OK, ERROR, HANDLED}
            && (res == ERROR <==> !HasLiveRow(s, id))
            && (res == OK <==> HasMarkableRow(s, id, now))
            && (if res == OK then Marks(s, t, id, now) else t == s)
  {
    var found := FindMsg(Live(s), id);
    if found.Some? {
      FoundIsOnly(s, id, found.value);
      assert found.value in s.log && IsLive(found.value);
    } else {
      assert forall m :: m in s.log && IsLive(m) ==> m in Live(s);
    }
  }

  lemma RmEvaluates(cfg: Cfg, env: Env, s: Store, c: Constr, id: int)
    requires Verify(cfg, env, s, c).Known?
    ensures Evaluate(cfg, env, s, Rm(c, id)) == PerformRm(env, s, id)
  {
  }

  lemma PerformRmAnswers(env: Env, s: Store, id: int)
    requires Valid(s)
    ensures var (t, r) := PerformRm(env, s, id);
            && r in {Done("rm"), Status(404), Status(500)}
            && (r == Done("rm") <==> QRm !in env.fails && HasMarkableRow(s, id, env.now))
            && (r == Status(404) <==> QRm !in env.fails && !HasLiveRow(s, id))
            && (if r == Done("rm") then Marks(s, t, id, env.now) else t == s)
  {
    RmOutcome(s, env.now, id);
  }

  /** A verified user's rm succeeds exactly when the message is live and its age may be
      stored; then that row is marked with its age and nothing else changes.  It answers
      404 exactly when no live row has that id, 500 otherwise, and then nothing changes. */
  lemma RmAnswers(cfg: Cfg, env: Env, s: Store, c: Constr, id: int)
    requires Valid(s) && Verify(cfg, env, s, c).Known?
    ensures var (t, r) := Evaluate(cfg, env, s, Rm(c, id));
            && r in {Done("rm"), Status(404), Status(500)}
            && (r == Done("rm") <==> QRm !in env.fails && HasMarkableRow(s, id, env.now))
            && (r == Status(404) <==> QRm !in env.fails && !HasLiveRow(s, id))
            && (if r == Done("rm") then Marks(s, t, id, env.now) else t == s)
  {
    RmEvaluates(cfg, env, s, c, id);
    PerformRmAnswers(env, s, id);
  }

  // ---- inbox ----

  /** An offset modulo 2^32 below 2^31 is the offset itself; any other is negative. */
  lemma WrapIsModulo(n: int)
    ensures n % 0x1_0000_0000 <= INT32_MAX ==> Wrap32(n) == n % 0x1_0000_0000
    ensures n % 0x1_0000_0000 > INT32_MAX ==> Wrap32(n) < 0
  {
  }

  /** A verified user's inbox, for any page number and page size: 500 when the query
      fails, the page size is negative or the offset modulo 2^32 is; otherwise the
      rows from that offset on, as many as there are up to the page size, each shown
      field by field, none as deleted. */
  lemma InboxAnswers(cfg: Cfg, env: Env, s: Store, c: Constr, page: int)
    requires Verify(cfg, env, s, c).Known?
    ensures var (t, r) := Evaluate(cfg, env, s, Inbox(c, page));
            var rows := InboxRows(s, Verify(cfg, env, s, c).id);
            var from := (cfg.pageInbox * (page - 1)) % 0x1_0000_0000;
            && t == s
            && if QInbox in env.fails || cfg.pageInbox < 0 || from > INT32_MAX then r == Status(500)
               else
                 && r.Messages?
                 && |r.msgs| == Max(0, Min(cfg.pageInbox, |rows| - from))
                 && forall i :: 0 <= i < |r.msgs| ==> Shows(r.msgs[i], rows[from + i], 0)
  {
    WrapIsModulo(cfg.pageInbox * (page - 1));
    forall m: Msg {
      ExportShows(m);
    }
  }

  // ---- The actions that do nothing yet ----

  /** Any verified user may ask for the day's message, an outbox or an edit; blocking and
      banning, and undoing either, is forbidden to members and to nobody else. */
  lemma StubAnswers(cfg: Cfg, env: Env, s: Store, a: Action)
    requires !a.Failed? && Verify(cfg, env, s, a.constr).Known?
    requires !a.Whois? && !a.Send? && !a.Inbox? && !a.Rm?
    ensures var (t, r) := Evaluate(cfg, env, s, a);
            var member := Verify(cfg, env, s, a.constr).role.Member?;
            && t == s
            && (a.Motd? ==> r == Done("motd")) && (a.Outbox? ==> r == Done("outbox")) && (a.Edit? ==> r == Done("edit"))
            && (a.Block? || a.Unblock? || a.Ban? || a.Unban? ==> (r == ErrorResponse(Other(403)) <==> member))
            && (a.Block? && !member ==> r == Done("block")) && (a.Unblock? && !member ==> r == Done("unblock"))
            && (a.Ban? && !member ==> r == Done("ban")) && (a.Unban? && !member ==> r == Done("unban"))
  {
  }

  // ---- Logins when users come and go ----

  lemma {:induction false} FirstByKeySnoc(users: seq<UserRow>, u: UserRow, key: Uuid)
    ensures FirstByKey(users + [u], key)
            == if FirstByKey(users, key).Some? then FirstByKey(users, key)
               else if u.apiKey == key then Some(u) else None
  {
    if users != [] {
      assert (users + [u])[1..] == users[1..] + [u];
      FirstByKeySnoc(users[1..], u, key);
    } else {
      assert [] + [u] == [u];
    }
  }

  /** Taking rows out leaves a key to the user it identified, unless that one goes. */
  lemma {:induction false} FirstByKeyFiltered(users: seq<UserRow>, p: UserRow -> bool, key: Uuid)
    requires FirstByKey(users, key).Some? && p(FirstByKey(users, key).value)
    ensures FirstByKey(Filter(users, p), key) == FirstByKey(users, key)
  {
    var n := |users| - 1;
    var before, kept := users[..n], Filter(users[..n], p);
    assert users == before + [users[n]];
    FirstByKeySnoc(before, users[n], key);
    if FirstByKey(before, key).Some? {
      FirstByKeyFiltered(before, p, key);
    }
    FirstByKeySnoc(kept, users[n], key);
    assert kept + [] == kept;
  }

  /** Deleting a user logs out nobody else. */
  lemma DeleteKeepsLogins(cfg: Cfg, env: Env, s: Store, c: Constr, id: int, kind: Kind)
    requires Valid(s) && Verify(cfg, env, s, c).Known? && (Verify(cfg, env, s, c).id != id || IsRoot(cfg, c))
    ensures Verify(cfg, env, DeleteUser(s, id, kind), c) == Verify(cfg, env, s, c)
  {
    if !IsRoot(cfg, c) && DeleteUser(s, id, kind) != s {
      FirstByKeyFiltered(s.users, NotUser(id), c.apiKey);
      DeleteUserRoles(s, id, kind);
    }
  }

  /** A new user takes over nobody's login, even with a key already in use. */
  lemma AddKeepsLogins(cfg: Cfg, env: Env, s: Store, c: Constr,
                       id: Option<int>, key: Uuid, hash: Option<string>, kind: Kind)
    requires Valid(s) && Verify(cfg, env, s, c).Known?
    ensures Verify(cfg, env, AddUser(s, id, key, hash, kind).0, c) == Verify(cfg, env, s, c)
  {
    if !IsRoot(cfg, c) && AddUser(s, id, key, hash, kind).1 {
      FirstByKeySnoc(s.users, UserRow(id.value, key, hash), c.apiKey);
      AddUserRoles(s, id, key, hash, kind, Verify(cfg, env, s, c).id);
    }
  }

  /** A new member or pro with a key of its own logs in exactly with a password its hash
      accepts, and whois then shows it under its role and name. */
  lemma NewUserLogsIn(cfg: Cfg, env: Env, s: Store, c: Constr, id: int, hash: Option<string>, kind: Kind)
    requires Valid(s) && env.fails == {} && !IsRoot(cfg, c)
    requires AddUser(s, Some(id), c.apiKey, hash, kind).1 && !kind.AsAdmin?
    requires forall u :: u in s.users ==> u.apiKey != c.apiKey
    ensures var t := AddUser(s, Some(id), c.apiKey, hash, kind).0;
            var role := if kind.AsMember? then Member else Pro;
            var accepted := c.password.Some? && cfg.checkpw(c.password, if hash.Some? then hash.value else "");
            && (Verify(cfg, env, t, c) == Known(role, id) <==> accepted)
            && (accepted ==> Evaluate(cfg, env, t, Whois(c, id)) == (t, User(id, role, kind.name)))
  {
    var t := AddUser(s, Some(id), c.apiKey, hash, kind).0;
    AddUserKeepsValid(s, Some(id), c.apiKey, hash, kind);
    AddUserRoles(s, Some(id), c.apiKey, hash, kind, id);
    OneSubtypePerUser(t, id);
    VerifiedIff(cfg, env, t, Whois(c, id), |s.users|);
    if Verify(cfg, env, t, c).Known? {
      WhoisAnswers(cfg, env, t, c, id);
    }
  }
}
