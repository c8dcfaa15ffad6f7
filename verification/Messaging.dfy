/** Who may write to whom: the send rules as a property of the stored messages. */
module Messaging {
  import opened Base
  import opened Uuid
  import opened Constr
  import opened Tables
  import opened Actions
  import opened Effects

  /** A message from `m`'s recipient to its sender, stored before it, deleted or not. */
  ghost predicate HasWitness(log: seq<Msg>, m: Msg) {
    exists w :: w in log && w.id < m.id && SenderId(w) == m.recipient && w.recipient == SenderId(m)
  }

  /** no_send_self, client_send_pro and pro_responds_client, read on a stored row. */
  ghost predicate RowRules(s: Store, m: Msg) {
    && SenderId(m) != m.recipient
    && (m.sender.Some? && m.sender.value in s.members ==> m.recipient in s.pros)
    && (m.sender.Some? && m.sender.value in s.pros ==> m.recipient in s.members && HasWitness(s.log, m))
  }

  ghost predicate Rules(s: Store) {
    forall m :: m in s.log ==> RowRules(s, m)
  }

  /** A message from `from` to `to` is in the log, deleted or not. */
  ghost predicate Contacted(log: seq<Msg>, from: int, to: int) {
    exists w :: w in log && SenderId(w) == from && w.recipient == to
  }

  /** What the guards of a send protect against, read on the tables before it. */
  ghost predicate WouldBreak(s: Store, sender: int, dest: int) {
    || sender == dest
    || (sender != 0 && sender in s.members && dest !in s.pros)
    || (sender != 0 && sender in s.pros && (dest !in s.members || !Contacted(s.log, dest, sender)))
  }

  // ---- One row more ----

  /** A new row satisfies the rules exactly when the guards would have let it by,
      and makes no older row break them. */
  lemma AppendRules(s: Store, m: Msg)
    requires Valid(s) && m.id == s.nextMsgId
    requires m.sender == NullIfRoot(SenderId(m))
    requires Rules(s)
    ensures Rules(Appended(s, m)) <==> !WouldBreak(s, SenderId(m), m.recipient)
  {
    var t := Appended(s, m);
    forall r | r in s.log
      ensures RowRules(t, r)
    {
      if HasWitness(s.log, r) {
        var w :| w in s.log && w.id < r.id && SenderId(w) == r.recipient && w.recipient == SenderId(r);
        assert w in t.log;
      }
    }
    assert m in t.log;
    NewWitness(s, m);
  }

  lemma NewWitness(s: Store, m: Msg)
    requires Valid(s) && m.id == s.nextMsgId
    ensures HasWitness(s.log + [m], m) <==> Contacted(s.log, m.recipient, SenderId(m))
  {
  }

  /** Under either reading, an action on a store that obeys the rules leaves one
      that obeys them, unless it is a send that gets stored although a rule forbids
      it, and then it does not. */
  lemma RulesKeptIff(cfg: Cfg, env: Env, s: Store, a: Action)
    requires Valid(s) && Rules(s)
    ensures Rules(Evaluate(cfg, env, s, a).0)
            <==> !(a.Send? && Storable(cfg, env, s, a) && WouldBreak(s, Verify(cfg, env, s, a.constr).id, a.dest))
  {
    var r := Evaluate(cfg, env, s, a).1;
    if a.Send? {
      StoredIff(cfg, env, s, a);
    }
    if StoredId(r).Some? {
      StoredSend(cfg, env, s, a);
      AppendRules(s, NewMsg(cfg, env, s, a));
    } else if r == REMOVED {
      ReportedRemoval(cfg, env, s, a);
      MarkKeepsRules(s, a.msgId, SecondsDiff(env.now, FindMsg(Live(s), a.msgId).value.sentAt));
    } else {
      OtherwiseUntouched(cfg, env, s, a);
    }
  }

  lemma MarkKeepsWitness(log: seq<Msg>, id: int, age: int, m: Msg)
    requires HasWitness(log, m)
    ensures HasWitness(SetDeleted(log, id, age), m)
  {
    var w :| w in log && w.id < m.id && SenderId(w) == m.recipient && w.recipient == SenderId(m);
    var k :| 0 <= k < |log| && log[k] == w;
    assert SetDeleted(log, id, age)[k] in SetDeleted(log, id, age);
  }

  /** A soft delete keeps the witness row. */
  lemma MarkKeepsRules(s: Store, id: int, age: int)
    requires Rules(s)
    ensures Rules(s.(log := SetDeleted(s.log, id, age)))
  {
    var t := s.(log := SetDeleted(s.log, id, age));
    forall r | r in t.log
      ensures RowRules(t, r)
    {
      SetDeletedRow(s.log, id, age, r);
      var m :| m in s.log && r == if m.id == id then m.(deletedAge := Some(age)) else m;
      if HasWitness(s.log, m) {
        MarkKeepsWitness(s.log, id, age, m);
        assert HasWitness(t.log, r);
      }
    }
  }

  // ---- The documented guards ----

  /** As documented, and as long as the count query itself does not fail, whatever
      is stored obeys the rules. */
  lemma DocumentedGuards(cfg: Cfg, env: Env, s: Store, a: Action)
    requires Valid(s) && cfg.reading.AsDocumented? && QCount !in env.fails
    requires StoredId(Evaluate(cfg, env, s, a).1).Some?
    ensures a.Send?
    ensures !WouldBreak(s, Verify(cfg, env, s, a.constr).id, a.dest)
  {
    StoredSend(cfg, env, s, a);
    StoredIff(cfg, env, s, a);
    KnownUserExists(cfg, env, s, a.constr);
    var who := Verify(cfg, env, s, a.constr);
    if who.role.Pro? && HasLive(s, a.dest, who.id) {
      assert Contacted(s.log, a.dest, who.id);
    }
  }

  // ---- The text as written ----

  const KEY: Uuid := seq(16, i => if i < 16 then 1 else 0)

  const SAMPLE_CONSTR := Constr(KEY, Some("p"))

  function SampleCfg(reading: Reading): Cfg {
    Cfg(seq(16, _ => 0), "", (_, _) => true, 1000, 4, reading)
  }

  /** The sample connection string is verified as the first row when that has the sample key. */
  lemma SampleVerified(reading: Reading, env: Env, s: Store, role: Role)
    requires QVerify !in env.fails && s.users != [] && s.users[0].apiKey == KEY
    requires ViewRole(s, s.users[0].id) == Some(Some(if role.Member? then 2 else 4)) && !role.Admin?
    ensures Verify(SampleCfg(reading), env, s, SAMPLE_CONSTR) == Known(role, s.users[0].id)
  {
    assert KEY[0] == 1;
  }

  /** Two members, 1 and 2; the first has the key KEY. */
  function TwoMembers(): Store {
    Store([UserRow(1, KEY, Some("h")), UserRow(2, seq(16, _ => 2), Some("h"))],
          map[1 := "a", 2 := "b"], map[], {}, [], 1)
  }

  /** The only row a first message leaves. */
  function FirstMsg(sender: int, dest: int): Msg {
    Msg(1, "hi", 0, None, None, None, Some(sender), dest)
  }

  lemma TwoMembersSend(env: Env)
    requires env == Env(0, false, {})
    ensures PerformSend(SampleCfg(AsWritten), env, TwoMembers(), Known(Member, 1), 2, Text(2, "hi"))
            == (Appended(TwoMembers(), FirstMsg(1, 2)), Overwritten(1, "client_send_pro"))
    ensures PerformSend(SampleCfg(AsDocumented), env, TwoMembers(), Known(Member, 1), 2, Text(2, "hi"))
            == (TwoMembers(), ErrorResponse(Invariant("client_send_pro")))
    ensures !Rules(Appended(TwoMembers(), FirstMsg(1, 2)))
  {
    var s := TwoMembers();
    assert s.users[0].id == 1 && s.users[1].id == 2;
    assert DestRole(env, s, 2) == Ok(Member);
    var t := Appended(s, FirstMsg(1, 2));
    assert t.log[0] in t.log;
  }

  /** As written, a member's message to another member is stored: the error is set,
      then overwritten by the id of the message.  As documented it is refused. */
  lemma AsWrittenStoresForbidden()
    ensures var send := Send(SAMPLE_CONSTR, 2, Text(2, "hi"));
            var env := Env(0, false, {});
            && Rules(TwoMembers())
            && Evaluate(SampleCfg(AsWritten), env, TwoMembers(), send).1 == Overwritten(1, "client_send_pro")
            && !Rules(Evaluate(SampleCfg(AsWritten), env, TwoMembers(), send).0)
            && Evaluate(SampleCfg(AsDocumented), env, TwoMembers(), send).1
               == ErrorResponse(Invariant("client_send_pro"))
  {
    var s, env := TwoMembers(), Env(0, false, {});
    assert s.users[0].id == 1 && s.users[0] in s.users;
    SampleVerified(AsWritten, env, s, Member);
    SampleVerified(AsDocumented, env, s, Member);
    TwoMembersSend(env);
  }

  /** A member 1 and a pro 2 whose key is KEY; nobody has written yet. */
  function MemberAndPro(): Store {
    Store([UserRow(2, KEY, Some("h")), UserRow(1, seq(16, _ => 2), Some("h"))],
          map[1 := "a"], map[2 := "b"], {}, [], 1)
  }

  lemma ProSendsFirst()
    ensures PerformSend(SampleCfg(AsDocumented), Env(0, false, {}), MemberAndPro(), Known(Pro, 2), 1, Text(2, "hi"))
            == (MemberAndPro(), ErrorResponse(Invariant("pro_responds_client")))
    ensures PerformSend(SampleCfg(AsDocumented), Env(0, false, {QCount}), MemberAndPro(), Known(Pro, 2), 1,
                        Text(2, "hi"))
            == (Appended(MemberAndPro(), FirstMsg(2, 1)), Sent(1))
    ensures !Rules(Appended(MemberAndPro(), FirstMsg(2, 1)))
  {
    var s := MemberAndPro();
    assert s.users[0].id == 2 && s.users[1].id == 1;
    assert DestRole(Env(0, false, {}), s, 1) == Ok(Member) && DestRole(Env(0, false, {QCount}), s, 1) == Ok(Member);
    assert CountLive(s, 1, 2) == 0;
    var t := Appended(s, FirstMsg(2, 1));
    assert t.log[0] in t.log && !HasWitness(t.log, t.log[0]);
  }

  /** Even as documented, a count query that fails is taken for a positive count:
      the pro's unsolicited message is stored. */
  lemma FailedCountOpensGate()
    ensures var send := Send(SAMPLE_CONSTR, 1, Text(2, "hi"));
            var s := MemberAndPro();
            && Rules(s)
            && Evaluate(SampleCfg(AsDocumented), Env(0, false, {}), s, send).1
               == ErrorResponse(Invariant("pro_responds_client"))
            && Evaluate(SampleCfg(AsDocumented), Env(0, false, {QCount}), s, send).1 == Sent(1)
            && !Rules(Evaluate(SampleCfg(AsDocumented), Env(0, false, {QCount}), s, send).0)
  {
    var s := MemberAndPro();
    assert s.users[0].id == 2 && s.users[0] in s.users;
    SampleVerified(AsDocumented, Env(0, false, {}), s, Pro);
    SampleVerified(AsDocumented, Env(0, false, {QCount}), s, Pro);
    ProSendsFirst();
  }

  // ---- Users come and go ----

  lemma AddUserKeepsRules(s: Store, id: Option<int>, key: Uuid, hash: Option<string>, kind: Kind)
    requires Valid(s) && Rules(s)
    ensures Rules(AddUser(s, id, key, hash, kind).0)
  {
  }

  /** A cascade removes a reply together with its witness. */
  lemma DeleteUserKeepsRules(s: Store, id: int, kind: Kind)
    requires Valid(s) && Rules(s)
    ensures Rules(DeleteUser(s, id, kind))
  {
  }
}
