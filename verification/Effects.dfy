/** What one action does to the store: everything the theorems about runs need. */
module Effects {
  import opened Base
  import opened Uuid
  import opened Constr
  import opened Tables
  import opened Inbox
  import opened Actions

  function Count(b: bool): nat {
    if b then 1 else 0
  }

  lemma {:induction false} NothingFiltered(rows: seq<Msg>, id: int)
    requires forall i :: 0 <= i < |rows| ==> rows[i].id != id
    ensures |Filter(rows, NotMsg(id))| == |rows|
  {
    if rows != [] {
      NothingFiltered(rows[..|rows| - 1], id);
    }
  }

  lemma {:induction false} OneFiltered(rows: seq<Msg>, k: nat)
    requires Increasing(rows) && k < |rows|
    ensures |Filter(rows, NotMsg(rows[k].id))| == |rows| - 1
  {
    var n := |rows| - 1;
    if k == n {
      NothingFiltered(rows[..n], rows[k].id);
    } else {
      OneFiltered(rows[..n], k);
    }
  }

  /** Appending a fresh live row to the log appends it to the view. */
  lemma LiveAfterAppend(log: seq<Msg>, m: Msg)
    requires IsLive(m)
    ensures Filter(log + [m], IsLive) == Filter(log, IsLive) + [m]
  {
  }

  /** Everything but the log and its sequence. */
  predicate SameUsers(s: Store, t: Store) {
    (s.users, s.members, s.pros, s.admins) == (t.users, t.members, t.pros, t.admins)
  }

  /** The row a send of `a` by the verified user adds. */
  function NewMsg(cfg: Cfg, env: Env, s: Store, a: Action): Msg
    requires a.Send? && Verify(cfg, env, s, a.constr).Known?
  {
    Msg(s.nextMsgId, a.content.val, env.now, None, None, None, NullIfRoot(Verify(cfg, env, s, a.constr).id), a.dest)
  }

  /** A store with one more row. */
  function Appended(s: Store, m: Msg): Store {
    s.(log := s.log + [m], nextMsgId := s.nextMsgId + 1)
  }

  /** A response that reports a stored message means just that. */
  lemma StoredSend(cfg: Cfg, env: Env, s: Store, a: Action)
    requires StoredId(Evaluate(cfg, env, s, a).1).Some?
    ensures a.Send? && Verify(cfg, env, s, a.constr).Known?
    ensures Evaluate(cfg, env, s, a).0 == Appended(s, NewMsg(cfg, env, s, a))
    ensures StoredId(Evaluate(cfg, env, s, a).1).value == s.nextMsgId <= INT32_MAX
    ensures Valid(s) ==> Valid(Appended(s, NewMsg(cfg, env, s, a)))
  {
    var who := Verify(cfg, env, s, a.constr);
    InsertedIsAppended(s, env.now, who.id, a.dest, a.content.val);
    if Valid(s) {
      InsertMsgKeepsValid(s, env.now, who.id, a.dest, a.content.val);
    }
  }

  lemma InsertedIsAppended(s: Store, now: int, sender: int, recipient: int, content: string)
    ensures var (t, id) := InsertMsg(s, now, sender, recipient, content);
            var m := Msg(s.nextMsgId, content, now, None, None, None, NullIfRoot(sender), recipient);
            id != HANDLED && s.nextMsgId > 0 ==> t == Appended(s, m) && id == m.id <= INT32_MAX
  {
  }

  /** A response that reports a removal means a live row was marked. */
  lemma ReportedRemoval(cfg: Cfg, env: Env, s: Store, a: Action)
    requires Evaluate(cfg, env, s, a).1 == REMOVED
    ensures a.Rm? && RmMsg(s, env.now, a.msgId).1 == OK
    ensures Evaluate(cfg, env, s, a).0 == RmMsg(s, env.now, a.msgId).0
  {
  }

  /** From `s` to `t` the tables keep their promises, the users stay, the log grows by
      `stored` rows and the live count by `stored - removed`. */
  ghost predicate Moves(s: Store, t: Store, stored: nat, removed: nat) {
    && Valid(t) && SameUsers(s, t) && s.nextMsgId <= t.nextMsgId
    && |t.log| == |s.log| + stored
    && |Live(t)| == |Live(s)| + stored - removed
  }

  lemma AppendMoves(s: Store, m: Msg)
    requires Valid(Appended(s, m)) && IsLive(m)
    ensures Moves(s, Appended(s, m), 1, 0)
  {
    LiveAfterAppend(s.log, m);
  }

  lemma RmMoves(s: Store, now: int, id: int)
    requires Valid(s) && RmMsg(s, now, id).1 == OK
    ensures Moves(s, RmMsg(s, now, id).0, 0, 1)
  {
    RmMsgKeepsValid(s, now, id);
    var m := FindMsg(Live(s), id).value;
    LiveAfterSetDeleted(s.log, id, SecondsDiff(now, m.sentAt));
    FilterKeepsOrder(s.log, IsLive);
    var k :| 0 <= k < |Live(s)| && Live(s)[k] == m;
    OneFiltered(Live(s), k);
  }

  /** An action keeps the promises of the tables and never touches users; the log
      grows by exactly one live row when the response reports a stored message; the
      live count falls by one when it reports a removal; otherwise the log is
      untouched. */
  lemma EvaluateEffect(cfg: Cfg, env: Env, s: Store, a: Action)
    requires Valid(s)
    ensures var (t, r) := Evaluate(cfg, env, s, a);
            && Moves(s, t, Count(StoredId(r).Some?), Count(r == REMOVED))
            && (StoredId(r).None? && r != REMOVED ==> t.log == s.log)
  {
    var r := Evaluate(cfg, env, s, a).1;
    if StoredId(r).Some? {
      StoredSend(cfg, env, s, a);
      AppendMoves(s, NewMsg(cfg, env, s, a));
    } else if r == REMOVED {
      ReportedRemoval(cfg, env, s, a);
      RmMoves(s, env.now, a.msgId);
    } else {
      OtherwiseUntouched(cfg, env, s, a);
    }
  }

  /** The store once an id has been drawn for nothing. */
  function UsedId(s: Store): Store {
    s.(nextMsgId := s.nextMsgId + 1)
  }

  /** Only a send or a removal reported in the response changes the tables; a verified
      user's send that the database refuses can at most use up a message id.  A parse
      failure is echoed, and failed credentials answer 401 or 500. */
  lemma OtherwiseUntouched(cfg: Cfg, env: Env, s: Store, a: Action)
    requires Valid(s)
    requires StoredId(Evaluate(cfg, env, s, a).1).None? && Evaluate(cfg, env, s, a).1 != REMOVED
    ensures var (t, r) := Evaluate(cfg, env, s, a);
            && (t == s || (a.Send? && Verify(cfg, env, s, a.constr).Known?
                          && t == UsedId(s) && s.nextMsgId <= INT32_MAX))
            && (a.Failed? ==> r == ErrorResponse(a.error))
            && (!a.Failed? && !Verify(cfg, env, s, a.constr).Known? ==>
                  r in {Status(UNAUTHORIZED), Status(INTERNAL_SERVER_ERROR)})
  {
    if a.Send? && Verify(cfg, env, s, a.constr).Known? {
      UnstoredSend(cfg, env, s, Verify(cfg, env, s, a.constr), a.dest, a.content);
    }
  }

  lemma UnstoredSend(cfg: Cfg, env: Env, s: Store, who: Identity, dest: int, content: Text)
    requires who.Known? && StoredId(PerformSend(cfg, env, s, who, dest, content).1).None?
    requires Valid(s)
    ensures var t := PerformSend(cfg, env, s, who, dest, content).0;
            t == s || (t == UsedId(s) && s.nextMsgId <= INT32_MAX)
  {
  }

  /** A verified identity is root or a row of `_user`, in the subtype table of its role.
      Without a password it can only be root: an absent hash reaches the check as an
      empty string, not as an absent one. */
  lemma KnownUserExists(cfg: Cfg, env: Env, s: Store, c: Constr)
    requires Valid(s) && Verify(cfg, env, s, c).Known?
    ensures var who := Verify(cfg, env, s, c);
            && (|| who == Known(Admin, 0)
                || (who.role.Member? && who.id in s.members && who.id in Ids(s.users))
                || (who.role.Pro? && who.id in s.pros && who.id in Ids(s.users)))
            && (c.password.None? ==> who == Known(Admin, 0))
  {
  }

  // ---- What becomes of a send ----

  /** no_send_self: the user writes to itself. */
  predicate BreaksSelf(who: Identity, dest: int)
    requires who.Known?
  {
    who.id == dest
  }

  /** client_send_pro: a member writes to someone who is not a pro. */
  predicate BreaksClient(s: Store, who: Identity, dest: int)
    requires who.Known?
  {
    who.role.Member? && dest !in s.pros
  }

  /** pro_responds_client: a pro writes to someone who is not a member or, as documented
      and unless the count query fails, to a member none of whose messages to it is live. */
  ghost predicate BreaksPro(cfg: Cfg, env: Env, s: Store, who: Identity, dest: int)
    requires who.Known?
  {
    && who.role.Pro?
    && (dest !in s.members || (cfg.reading.AsDocumented? && QCount !in env.fails && !HasLive(s, dest, who.id)))
  }

  ghost predicate Lawful(cfg: Cfg, env: Env, s: Store, who: Identity, dest: int)
    requires who.Known?
  {
    !BreaksSelf(who, dest) && !BreaksClient(s, who, dest) && !BreaksPro(cfg, env, s, who, dest)
  }

  /** The message goes to an existing member or pro and is not too long. */
  predicate Fits(cfg: Cfg, env: Env, s: Store, dest: int, content: Text) {
    QRole !in env.fails && (dest in s.members || dest in s.pros) && content.len <= cfg.maxMsgLength
  }

  /** Nothing stops the send before the database is asked to store it. */
  ghost predicate Passes(cfg: Cfg, env: Env, s: Store, who: Identity, dest: int, content: Text)
    requires who.Known?
  {
    Fits(cfg, env, s, dest, content) && (cfg.reading.AsDocumented? ==> Lawful(cfg, env, s, who, dest))
  }

  /** The database gets as far as drawing an id for the message. */
  ghost predicate DrawsId(cfg: Cfg, env: Env, s: Store, who: Identity, dest: int, content: Text)
    requires who.Known?
  {
    Passes(cfg, env, s, who, dest, content) && QSend !in env.fails && !env.blocked && s.nextMsgId <= INT32_MAX
  }

  /** What a verified user's send must meet to be stored, all of it known before the
      call; no user of the database may write to itself, rules or no rules. */
  ghost predicate StorableBy(cfg: Cfg, env: Env, s: Store, who: Identity, dest: int, content: Text)
    requires who.Known?
  {
    DrawsId(cfg, env, s, who, dest, content) && QInsert !in env.fails && (who.id == dest ==> who.id == 0)
  }

  ghost predicate Storable(cfg: Cfg, env: Env, s: Store, a: Action)
    requires a.Send?
  {
    var who := Verify(cfg, env, s, a.constr);
    who.Known? && StorableBy(cfg, env, s, who, a.dest, a.content)
  }

  /** The rules tested on the roles and the count are the rules read on the tables. */
  lemma BrokenRulesAre(cfg: Cfg, env: Env, s: Store, who: Identity, dest: int)
    requires Valid(s) && who.Known? && (dest in s.members || dest in s.pros)
    ensures var broken := BrokenRules(cfg, env, s, who, dest, if dest in s.members then Member else Pro);
            && (broken == [] <==> Lawful(cfg, env, s, who, dest))
            && (broken != [] ==> && broken[0] == FirstBroken(s, who, dest)
                                 && broken[|broken| - 1] == LastBroken(cfg, env, s, who, dest))
  {
    CountIsCardinality(s, dest, who.id);
  }

  /** The rule a refusal names, when one is broken: the first in the order of the tests. */
  function FirstBroken(s: Store, who: Identity, dest: int): string
    requires who.Known?
  {
    if BreaksSelf(who, dest) then "no_send_self"
    else if BreaksClient(s, who, dest) then "client_send_pro"
    else "pro_responds_client"
  }

  /** The rule left in a response that was written over, when one is broken: the last. */
  ghost function LastBroken(cfg: Cfg, env: Env, s: Store, who: Identity, dest: int): string
    requires who.Known?
  {
    if BreaksPro(cfg, env, s, who, dest) then "pro_responds_client"
    else if BreaksClient(s, who, dest) then "client_send_pro"
    else "no_send_self"
  }

  /** A verified user's send, once it fits: what the guards make of it. */
  lemma GuardedSend(cfg: Cfg, env: Env, s: Store, who: Identity, dest: int, content: Text)
    requires Valid(s) && who.Known? && Fits(cfg, env, s, dest, content)
    ensures var (t, res) := DbSend(env, s, who.id, dest, content.val);
            PerformSend(cfg, env, s, who, dest, content)
            == if cfg.reading.AsDocumented? && !Lawful(cfg, env, s, who, dest)
               then (s, ErrorResponse(Invariant(FirstBroken(s, who, dest))))
               else (t, if res == HANDLED then Status(500)
                        else if res == ERROR then Status(403)
                        else if Lawful(cfg, env, s, who, dest) then Sent(res)
                        else Overwritten(res, LastBroken(cfg, env, s, who, dest)))
  {
    OneSubtypePerUser(s, dest);
    BrokenRulesAre(cfg, env, s, who, dest);
  }

  /** What the database makes of it. */
  lemma DbSendOutcome(env: Env, s: Store, sender: int, dest: int, content: string)
    requires Valid(s) && dest in Ids(s.users) && (sender != 0 ==> sender in Ids(s.users))
    ensures var (t, res) := DbSend(env, s, sender, dest, content);
            var draws := QSend !in env.fails && !env.blocked && s.nextMsgId <= INT32_MAX;
            && (res == ERROR <==> QSend !in env.fails && env.blocked)
            && (res > 0 <==> draws && QInsert !in env.fails && (sender == dest ==> sender == 0))
            && (res > 0 ==> res == s.nextMsgId)
            && (res <= 0 ==> res in {HANDLED, ERROR} && t == if draws then UsedId(s) else s)
  {
  }

  /** A verified user's send, stage by stage. */
  lemma SendOutcome(cfg: Cfg, env: Env, s: Store, a: Action)
    requires Valid(s) && a.Send? && Verify(cfg, env, s, a.constr).Known?
    ensures var who, (t, r) := Verify(cfg, env, s, a.constr), Evaluate(cfg, env, s, a);
            var lawful := Lawful(cfg, env, s, who, a.dest);
            if !Fits(cfg, env, s, a.dest, a.content) then
              && t == s
              && r == Status(if QRole in env.fails || a.dest in s.admins then 500
                             else if a.dest !in Ids(s.users) then 404 else 413)
            else if !Passes(cfg, env, s, who, a.dest, a.content) then
              t == s && r == ErrorResponse(Invariant(FirstBroken(s, who, a.dest)))
            else if !StorableBy(cfg, env, s, who, a.dest, a.content) then
              && t == (if DrawsId(cfg, env, s, who, a.dest, a.content) then UsedId(s) else s)
              && r == Status(if QSend !in env.fails && env.blocked then 403 else 500)
            else
              r == if lawful then Sent(s.nextMsgId) else Overwritten(s.nextMsgId, LastBroken(cfg, env, s, who, a.dest))
  {
    var who := Verify(cfg, env, s, a.constr);
    KnownUserExists(cfg, env, s, a.constr);
    OneSubtypePerUser(s, a.dest);
    if Fits(cfg, env, s, a.dest, a.content) {
      GuardedSend(cfg, env, s, who, a.dest, a.content);
      DbSendOutcome(env, s, who.id, a.dest, a.content.val);
    }
  }

  /** When a send is refused, and what it is answered, under either reading: every
      refusal by its exact condition, read on the tables before the call.  A pro whose
      client has a live message to it is not refused by the rules. */
  lemma SendRefusals(cfg: Cfg, env: Env, s: Store, a: Action)
    requires Valid(s) && a.Send? && Verify(cfg, env, s, a.constr).Known?
    ensures var who, r := Verify(cfg, env, s, a.constr), Evaluate(cfg, env, s, a).1;
            var addressed := QRole !in env.fails && (a.dest in s.members || a.dest in s.pros);
            var fits := addressed && a.content.len <= cfg.maxMsgLength;
            var passes := Passes(cfg, env, s, who, a.dest, a.content);
            var self, client := BreaksSelf(who, a.dest), BreaksClient(s, who, a.dest);
            var pro := BreaksPro(cfg, env, s, who, a.dest);
            && (r == ErrorResponse(Other(404)) <==> QRole !in env.fails && a.dest !in Ids(s.users))
            && (r == ErrorResponse(Other(413)) <==> addressed && a.content.len > cfg.maxMsgLength)
            && (r == ErrorResponse(Invariant("no_send_self")) <==> fits && cfg.reading.AsDocumented? && self)
            && (r == ErrorResponse(Invariant("client_send_pro"))
                <==> fits && cfg.reading.AsDocumented? && !self && client)
            && (r == ErrorResponse(Invariant("pro_responds_client"))
                <==> fits && cfg.reading.AsDocumented? && !self && pro)
            && (r == ErrorResponse(Other(403)) <==> passes && QSend !in env.fails && env.blocked)
            && (r == ErrorResponse(Other(500)) <==>
                || QRole in env.fails || a.dest in s.admins
                || (passes && (QSend in env.fails || !env.blocked)
                    && !StorableBy(cfg, env, s, who, a.dest, a.content)))
  {
    SendOutcome(cfg, env, s, a);
    OneSubtypePerUser(s, a.dest);
  }

  /** Exactly when a send is stored, and what the response then says: a plain success
      when it is lawful, else, as written, a success laid over the last broken rule. */
  lemma StoredIff(cfg: Cfg, env: Env, s: Store, a: Action)
    requires Valid(s) && a.Send?
    ensures var who, r := Verify(cfg, env, s, a.constr), Evaluate(cfg, env, s, a).1;
            && (StoredId(r).Some? <==> Storable(cfg, env, s, a))
            && (StoredId(r).Some? ==>
                  r == if Lawful(cfg, env, s, who, a.dest) then Sent(s.nextMsgId)
                       else Overwritten(s.nextMsgId, LastBroken(cfg, env, s, who, a.dest)))
  {
    if Verify(cfg, env, s, a.constr).Known? {
      SendOutcome(cfg, env, s, a);
    }
  }

  /** A pro may reply: as documented, once a member has a live message to it, a pro's
      message to that member is stored and reported, unless it is too long, blocked, out
      of ids or met by a failing query. */
  lemma ProMayReply(cfg: Cfg, env: Env, s: Store, a: Action)
    requires Valid(s) && cfg.reading.AsDocumented? && a.Send?
    requires env.fails == {} && !env.blocked && s.nextMsgId <= INT32_MAX && a.content.len <= cfg.maxMsgLength
    requires var who := Verify(cfg, env, s, a.constr);
             who.Known? && who.role.Pro? && a.dest in s.members && HasLive(s, a.dest, who.id)
    ensures Evaluate(cfg, env, s, a) == (Appended(s, NewMsg(cfg, env, s, a)), Sent(s.nextMsgId))
  {
    KnownUserExists(cfg, env, s, a.constr);
    StoredIff(cfg, env, s, a);
    StoredSend(cfg, env, s, a);
  }

  /** Under either reading, an action that neither stores nor removes leaves the store
      as it was, unless it is a send for which the database had already drawn an id:
      then that id is used up, and nothing else. */
  lemma RefusalLeavesStore(cfg: Cfg, env: Env, s: Store, a: Action)
    requires Valid(s)
    requires StoredId(Evaluate(cfg, env, s, a).1).None? && Evaluate(cfg, env, s, a).1 != REMOVED
    ensures var drawn := && a.Send? && Verify(cfg, env, s, a.constr).Known?
                         && DrawsId(cfg, env, s, Verify(cfg, env, s, a.constr), a.dest, a.content);
            Evaluate(cfg, env, s, a).0 == if drawn then UsedId(s) else s
  {
    OtherwiseUntouched(cfg, env, s, a);
    if a.Send? && Verify(cfg, env, s, a.constr).Known? {
      SendOutcome(cfg, env, s, a);
    }
  }

  lemma {:induction false} FirstRow(users: seq<UserRow>, key: Uuid, i: nat)
    requires i < |users| && users[i].apiKey == key && forall j :: 0 <= j < i ==> users[j].apiKey != key
    ensures FirstByKey(users, key) == Some(users[i])
  {
    if i > 0 {
      FirstRow(users[1..], key, i - 1);
    }
  }

  /** The key and a password that the hash of root accepts. */
  predicate IsRoot(cfg: Cfg, c: Constr) {
    c.apiKey == cfg.rootKey && cfg.checkpw(c.password, cfg.rootHash)
  }

  /** Root logs in whatever the store holds and whichever queries fail, and in a valid
      store nobody else is ever taken for an administrator. */
  lemma RootLogin(cfg: Cfg, env: Env, s: Store, c: Constr, id: int)
    ensures IsRoot(cfg, c) ==> Verify(cfg, env, s, c) == Known(Admin, 0)
    ensures Valid(s) ==> (Verify(cfg, env, s, c) == Known(Admin, id) <==> IsRoot(cfg, c) && id == 0)
  {
  }

  /** A key nobody bears answers 401, a failing query 500, to any action. */
  lemma UnknownLogin(cfg: Cfg, env: Env, s: Store, a: Action)
    requires !a.Failed? && !IsRoot(cfg, a.constr)
    ensures QVerify in env.fails ==> Evaluate(cfg, env, s, a) == (s, ErrorResponse(Other(500)))
    ensures QVerify !in env.fails && (forall u :: u in s.users ==> u.apiKey != a.constr.apiKey) ==>
              Evaluate(cfg, env, s, a) == (s, ErrorResponse(Other(401)))
  {
  }

  /** Otherwise the first row that bears the key decides, outcome by outcome: a member
      or a pro needs a password its hash accepts and is answered 401 without one; an
      administrator of the database is always answered 500. */
  lemma VerifiedIff(cfg: Cfg, env: Env, s: Store, a: Action, i: nat)
    requires Valid(s) && !a.Failed? && QVerify !in env.fails && !IsRoot(cfg, a.constr)
    requires i < |s.users| && s.users[i].apiKey == a.constr.apiKey
    requires forall j :: 0 <= j < i ==> s.users[j].apiKey != a.constr.apiKey
    ensures var u, v := s.users[i], Verify(cfg, env, s, a.constr);
            var accepted := && a.constr.password.Some?
                            && cfg.checkpw(a.constr.password, if u.hash.Some? then u.hash.value else "");
            && (v == Known(Member, u.id) <==> u.id in s.members && accepted)
            && (v == Known(Pro, u.id) <==> u.id in s.pros && accepted)
            && (u.id !in s.admins && !accepted ==> Evaluate(cfg, env, s, a) == (s, Status(401)))
            && (u.id in s.admins ==> Evaluate(cfg, env, s, a) == (s, Status(500)))
  {
    FirstRow(s.users, a.constr.apiKey, i);
    assert s.users[i].id in Ids(s.users);
    OneSubtypePerUser(s, s.users[i].id);
  }

  // ---- Send, then read back ----

  /** The record `o` tells of the row `m`: whole seconds rounded down, 0 for an absent
      age and for root. */
  predicate Shows(o: MsgOut, m: Msg, deletedAge: int) {
    && (o.id, o.content, o.recipient) == (m.id, m.content, m.recipient)
    && o.sentAt * 1_000_000 <= m.sentAt < (o.sentAt + 1) * 1_000_000
    && o.readAge == (match m.readAge { case None => 0 case Some(age) => age })
    && o.editedAge == (match m.editedAge { case None => 0 case Some(age) => age })
    && o.deletedAge == deletedAge
    && o.sender == (match m.sender { case None => 0 case Some(id) => id })
  }

  lemma ExportShows(m: Msg)
    ensures Shows(Export(m), m, 0)
  {
  }

  lemma FindLast(log: seq<Msg>, m: Msg)
    ensures FindMsg(log + [m], m.id) == Some(m)
  {
  }

  /** What a stored send reads back as, whoever sent it, root included: its id is
      fresh, and all ages are 0. */
  lemma SendThenRead(cfg: Cfg, env: Env, s: Store, a: Action)
    requires Valid(s) && StoredId(Evaluate(cfg, env, s, a).1).Some?
    ensures a.Send?
    ensures var (t, r) := Evaluate(cfg, env, s, a);
            var id := StoredId(r).value;
            && GetMsg(s, id) == None
            && GetMsg(t, id) == Some(MsgOut(id, a.content.val, env.now / 1_000_000, 0, 0, 0,
                                            Verify(cfg, env, s, a.constr).id, a.dest))
  {
    StoredSend(cfg, env, s, a);
    FindLast(s.log, NewMsg(cfg, env, s, a));
  }

  /** No other message reads differently after it. */
  lemma SendKeepsOthers(cfg: Cfg, env: Env, s: Store, a: Action, id: int)
    requires StoredId(Evaluate(cfg, env, s, a).1).Some? && StoredId(Evaluate(cfg, env, s, a).1) != Some(id)
    ensures GetMsg(Evaluate(cfg, env, s, a).0, id) == GetMsg(s, id)
  {
    StoredSend(cfg, env, s, a);
    FindNotLast(s.log, NewMsg(cfg, env, s, a), id);
  }

  // ---- Remove, then read back ----

  /** An age is the nearest whole number of seconds, halves away from zero. */
  lemma SecondsDiffIsNearest(t1: int, t2: int)
    ensures t1 >= t2 ==> -500_000 < SecondsDiff(t1, t2) * 1_000_000 - (t1 - t2) <= 500_000
    ensures SecondsDiff(t1, t2) == -SecondsDiff(t2, t1)
  {
  }

  lemma {:induction false} FindMarked(log: seq<Msg>, id: int, age: int, other: int)
    ensures FindMsg(SetDeleted(log, id, age), other)
            == match FindMsg(log, other)
               case None => None
               case Some(m) => Some(if other == id then m.(deletedAge := Some(age)) else m)
  {
    if log != [] {
      assert SetDeleted(log, id, age)[..|log| - 1] == SetDeleted(log[..|log| - 1], id, age);
      FindMarked(log[..|log| - 1], id, age, other);
    }
  }

  /** The row with an id is the one found. */
  lemma FindsRow(s: Store, m: Msg)
    requires Valid(s) && m in s.log
    ensures FindMsg(s.log, m.id) == Some(m)
    ensures IsLive(m) ==> FindMsg(Live(s), m.id) == Some(m)
  {
    FoundIsOnly(s, m.id, m);
  }

  /** Every row of the log reads back as itself, deleted or not; no other id does. */
  lemma GetMsgShows(s: Store, m: Msg, id: int)
    requires Valid(s)
    ensures m in s.log ==> GetMsg(s, m.id).Some? && Shows(GetMsg(s, m.id).value, m, Age(m.deletedAge))
    ensures GetMsg(s, id).Some? <==> exists r :: r in s.log && r.id == id
  {
    if m in s.log {
      FindsRow(s, m);
      ExportShows(m);
    }
  }

  /** A removed message still reads back from the log, with the seconds it lived as
      its deleted age; every other message reads as before. */
  lemma RmThenRead(s: Store, now: int, m: Msg, other: int)
    requires Valid(s) && m in s.log && IsLive(m) && RmMsg(s, now, m.id).1 == OK
    ensures var t := RmMsg(s, now, m.id).0;
            && GetMsg(t, m.id).Some? && Shows(GetMsg(t, m.id).value, m, SecondsDiff(now, m.sentAt))
            && (other != m.id ==> GetMsg(t, other) == GetMsg(s, other))
  {
    FindsRow(s, m);
    var age := SecondsDiff(now, m.sentAt);
    FindMarked(s.log, m.id, age, m.id);
    FindMarked(s.log, m.id, age, other);
    ExportShows(m);
  }

  lemma FindNotLast(log: seq<Msg>, m: Msg, id: int)
    requires m.id != id
    ensures FindMsg(log + [m], id) == FindMsg(log, id)
  {
  }
}
