/** Runs of the system: any sequence of user inserts, user deletes and actions. */
module Runs {
  import opened Base
  import opened Uuid
  import opened Constr
  import opened Tables
  import opened Inbox
  import opened Actions
  import opened Effects
  import opened Messaging

  datatype Op =
    | Insert(newId: Option<int>, key: Uuid, hash: Option<string>, kind: Kind)
    | Delete(id: int, kind: Kind)
    | Act(env: Env, action: Action)

  function Step(cfg: Cfg, s: Store, op: Op): Store {
    match op
    case Insert(id, key, hash, kind) => AddUser(s, id, key, hash, kind).0
    case Delete(id, kind) => DeleteUser(s, id, kind)
    case Act(env, a) => Evaluate(cfg, env, s, a).0
  }

  function Run(cfg: Cfg, s: Store, ops: seq<Op>): Store
    decreases ops
  {
    if ops == [] then s else Run(cfg, Step(cfg, s, ops[0]), ops[1..])
  }

  lemma {:induction false} RunConcat(cfg: Cfg, s: Store, xs: seq<Op>, ys: seq<Op>)
    ensures Run(cfg, s, xs + ys) == Run(cfg, Run(cfg, s, xs), ys)
    decreases xs
  {
    if xs == [] {
      assert xs + ys == ys;
    } else {
      assert (xs + ys)[1..] == xs[1..] + ys;
      RunConcat(cfg, Step(cfg, s, xs[0]), xs[1..], ys);
    }
  }

  // ---- Integrity ----

  lemma StepKeepsValid(cfg: Cfg, s: Store, op: Op)
    requires Valid(s)
    ensures Valid(Step(cfg, s, op))
    ensures s.nextMsgId <= Step(cfg, s, op).nextMsgId
  {
    match op
    case Insert(id, key, hash, kind) => AddUserKeepsValid(s, id, key, hash, kind);
    case Delete(id, kind) => DeleteUserKeepsValid(s, id, kind);
    case Act(env, a) => EvaluateEffect(cfg, env, s, a);
  }

  /** Every reachable store keeps one subtype per user, distinct keys, references to
      existing users, increasing message ids and the check constraints. */
  lemma {:induction false} ReachableValid(cfg: Cfg, s: Store, ops: seq<Op>)
    requires Valid(s)
    ensures Valid(Run(cfg, s, ops))
    decreases ops
  {
    if ops != [] {
      StepKeepsValid(cfg, s, ops[0]);
      ReachableValid(cfg, Step(cfg, s, ops[0]), ops[1..]);
    }
  }

  // ---- The messaging rules along a run ----

  /** The operation is a send that gets stored although a messaging rule forbids it. */
  ghost predicate Breaks(cfg: Cfg, s: Store, op: Op) {
    && op.Act? && op.action.Send?
    && Storable(cfg, op.env, s, op.action)
    && WouldBreak(s, Verify(cfg, op.env, s, op.action.constr).id, op.action.dest)
  }

  /** No operation breaks a rule in the store it meets. */
  ghost predicate NoBreach(cfg: Cfg, s: Store, ops: seq<Op>)
    decreases ops
  {
    ops == [] || (!Breaks(cfg, s, ops[0]) && NoBreach(cfg, Step(cfg, s, ops[0]), ops[1..]))
  }

  /** Every store along the run obeys the rules. */
  ghost predicate RulesThroughout(cfg: Cfg, s: Store, ops: seq<Op>)
    decreases ops
  {
    Rules(s) && (ops == [] || RulesThroughout(cfg, Step(cfg, s, ops[0]), ops[1..]))
  }

  lemma StepKeepsRulesIff(cfg: Cfg, s: Store, op: Op)
    requires Valid(s) && Rules(s)
    ensures Rules(Step(cfg, s, op)) <==> !Breaks(cfg, s, op)
  {
    match op
    case Insert(id, key, hash, kind) => AddUserKeepsRules(s, id, key, hash, kind);
    case Delete(id, kind) => DeleteUserKeepsRules(s, id, kind);
    case Act(env, a) => RulesKeptIff(cfg, env, s, a);
  }

  /** Under either reading, the messaging rules hold in every store along a run exactly
      when no send of the run is stored against them. */
  lemma {:induction false} RulesThroughoutIff(cfg: Cfg, s: Store, ops: seq<Op>)
    requires Valid(s) && Rules(s)
    ensures RulesThroughout(cfg, s, ops) <==> NoBreach(cfg, s, ops)
    decreases ops
  {
    if ops != [] {
      StepKeepsValid(cfg, s, ops[0]);
      StepKeepsRulesIff(cfg, s, ops[0]);
      if Rules(Step(cfg, s, ops[0])) {
        RulesThroughoutIff(cfg, Step(cfg, s, ops[0]), ops[1..]);
      }
    }
  }

  /** The rules throughout a run hold at its end. */
  lemma {:induction false} ThroughoutMeansAtEnd(cfg: Cfg, s: Store, ops: seq<Op>)
    requires RulesThroughout(cfg, s, ops)
    ensures Rules(Run(cfg, s, ops))
    decreases ops
  {
    if ops != [] {
      ThroughoutMeansAtEnd(cfg, Step(cfg, s, ops[0]), ops[1..]);
    }
  }

  /** No action of the run meets a failing count query. */
  predicate CountsWork(ops: seq<Op>) {
    forall i :: 0 <= i < |ops| && ops[i].Act? ==> QCount !in ops[i].env.fails
  }

  /** As documented, with working counts, no send is stored against a rule. */
  lemma {:induction false} DocumentedNoBreach(cfg: Cfg, s: Store, ops: seq<Op>)
    requires Valid(s) && cfg.reading.AsDocumented? && CountsWork(ops)
    ensures NoBreach(cfg, s, ops)
    decreases ops
  {
    if ops != [] {
      StepKeepsValid(cfg, s, ops[0]);
      if ops[0].Act? && ops[0].action.Send? && Storable(cfg, ops[0].env, s, ops[0].action) {
        StoredIff(cfg, ops[0].env, s, ops[0].action);
        DocumentedGuards(cfg, ops[0].env, s, ops[0].action);
      }
      DocumentedNoBreach(cfg, Step(cfg, s, ops[0]), ops[1..]);
    }
  }

  /** As documented, every reachable store obeys the messaging rules: nobody writes to
      itself, members write to pros, and a pro's message to a member comes after one
      from that member that is still in the log. */
  lemma ReachableRules(cfg: Cfg, s: Store, ops: seq<Op>)
    requires cfg.reading.AsDocumented? && CountsWork(ops)
    requires Valid(s) && Rules(s)
    ensures Rules(Run(cfg, s, ops))
  {
    DocumentedNoBreach(cfg, s, ops);
    RulesThroughoutIff(cfg, s, ops);
    ThroughoutMeansAtEnd(cfg, s, ops);
  }

  lemma EmptyStore()
    ensures Valid(EMPTY) && Rules(EMPTY) && ClockBound(EMPTY, 0)
  {
  }

  // ---- Content length ----

  ghost predicate ShortContents(cfg: Cfg, s: Store) {
    forall m :: m in s.log ==> |m.content| <= cfg.maxMsgLength
  }

  /** The string arguments are no longer than the length that came with them. */
  predicate HonestText(op: Op) {
    op.Act? && op.action.Send? ==> |op.action.content.val| <= op.action.content.len
  }

  /** No stored message exceeds the configured number of bytes. */
  lemma {:induction false} ReachableShort(cfg: Cfg, s: Store, ops: seq<Op>)
    requires Valid(s) && ShortContents(cfg, s)
    requires forall i :: 0 <= i < |ops| ==> HonestText(ops[i])
    ensures ShortContents(cfg, Run(cfg, s, ops))
    decreases ops
  {
    if ops != [] {
      StepKeepsValid(cfg, s, ops[0]);
      StepKeepsShort(cfg, s, ops[0]);
      assert forall i :: 0 <= i < |ops| - 1 ==> ops[1..][i] == ops[i + 1];
      ReachableShort(cfg, Step(cfg, s, ops[0]), ops[1..]);
    }
  }

  lemma StepKeepsShort(cfg: Cfg, s: Store, op: Op)
    requires Valid(s) && ShortContents(cfg, s) && HonestText(op)
    ensures ShortContents(cfg, Step(cfg, s, op))
  {
    match op
    case Insert(_, _, _, _) =>
    case Delete(_, _) =>
    case Act(env, a) =>
      var r := Evaluate(cfg, env, s, a).1;
      if StoredId(r).Some? {
        StoredSend(cfg, env, s, a);
        StoredIff(cfg, env, s, a);
      } else if r == REMOVED {
        ReportedRemoval(cfg, env, s, a);
        var age := SecondsDiff(env.now, FindMsg(Live(s), a.msgId).value.sentAt);
        forall m | m in Step(cfg, s, op).log
          ensures |m.content| <= cfg.maxMsgLength
        {
          SetDeletedRow(s.log, a.msgId, age, m);
        }
      } else {
        OtherwiseUntouched(cfg, env, s, a);
      }
  }

  // ---- Conservation ----

  /** How many responses of the run report a stored message. */
  function Stores(cfg: Cfg, s: Store, ops: seq<Op>): nat
    decreases ops
  {
    if ops == [] then 0
    else
      Count(ops[0].Act? && StoredId(Evaluate(cfg, ops[0].env, s, ops[0].action).1).Some?)
      + Stores(cfg, Step(cfg, s, ops[0]), ops[1..])
  }

  function Removals(cfg: Cfg, s: Store, ops: seq<Op>): nat
    decreases ops
  {
    if ops == [] then 0
    else
      Count(ops[0].Act? && Evaluate(cfg, ops[0].env, s, ops[0].action).1 == REMOVED)
      + Removals(cfg, Step(cfg, s, ops[0]), ops[1..])
  }

  predicate OnlyActions(ops: seq<Op>) {
    forall i :: 0 <= i < |ops| ==> ops[i].Act?
  }

  /** Over any sequence of actions the log grows by exactly the messages reported
      stored, the live count changes by these minus the removals reported, and the
      users stay as they were. */
  lemma {:induction false} Conservation(cfg: Cfg, s: Store, ops: seq<Op>)
    requires Valid(s) && OnlyActions(ops)
    ensures var t := Run(cfg, s, ops);
            && |t.log| == |s.log| + Stores(cfg, s, ops)
            && |Live(t)| == |Live(s)| + Stores(cfg, s, ops) - Removals(cfg, s, ops)
            && SameUsers(s, t)
    decreases ops
  {
    if ops != [] {
      var t := Step(cfg, s, ops[0]);
      EvaluateEffect(cfg, ops[0].env, s, ops[0].action);
      assert OnlyActions(ops[1..]);
      Conservation(cfg, t, ops[1..]);
      var (t', r) := Evaluate(cfg, ops[0].env, s, ops[0].action);
      assert Stores(cfg, s, ops) == Count(StoredId(r).Some?) + Stores(cfg, t, ops[1..]);
      assert Removals(cfg, s, ops) == Count(r == REMOVED) + Removals(cfg, t, ops[1..]);
    }
  }

  // ---- Stored messages never change ----

  /** `after` is `before` up to a deletion, which happens once. */
  predicate Aged(before: Msg, after: Msg) {
    after == before.(deletedAge := after.deletedAge) && (!IsLive(before) ==> after == before)
  }

  lemma ActAgesRows(cfg: Cfg, env: Env, s: Store, a: Action)
    requires Valid(s)
    ensures var t := Evaluate(cfg, env, s, a).0;
            |s.log| <= |t.log| && forall i :: 0 <= i < |s.log| ==> Aged(s.log[i], t.log[i])
  {
    var r := Evaluate(cfg, env, s, a).1;
    if StoredId(r).Some? {
      StoredSend(cfg, env, s, a);
    } else if r == REMOVED {
      ReportedRemoval(cfg, env, s, a);
      RmAgesRows(s, env.now, a.msgId);
    } else {
      OtherwiseUntouched(cfg, env, s, a);
    }
  }

  lemma RmAgesRows(s: Store, now: int, id: int)
    requires Valid(s) && RmMsg(s, now, id).1 == OK
    ensures var t := RmMsg(s, now, id).0;
            |t.log| == |s.log| && forall i :: 0 <= i < |s.log| ==> Aged(s.log[i], t.log[i])
  {
    var m := FindMsg(Live(s), id).value;
    FoundIsOnly(s, id, m);
    assert forall i :: 0 <= i < |s.log| ==> s.log[i] in s.log;
  }

  /** Over any sequence of actions every stored row keeps its place and its contents;
      it can be marked deleted, and once it is it does not change at all. */
  lemma {:induction false} RowsOnlyAge(cfg: Cfg, s: Store, ops: seq<Op>)
    requires Valid(s) && OnlyActions(ops)
    ensures var t := Run(cfg, s, ops);
            |s.log| <= |t.log| && forall i :: 0 <= i < |s.log| ==> Aged(s.log[i], t.log[i])
    decreases ops
  {
    if ops != [] {
      StepKeepsValid(cfg, s, ops[0]);
      ActAgesRows(cfg, ops[0].env, s, ops[0].action);
      assert OnlyActions(ops[1..]);
      RowsOnlyAge(cfg, Step(cfg, s, ops[0]), ops[1..]);
    }
  }

  // ---- A message is removed at most once ----

  /** The message can still be removed: it is live, or its id is yet to be given. */
  ghost predicate Removable(s: Store, id: int) {
    id >= s.nextMsgId || exists m :: m in s.log && m.id == id && IsLive(m)
  }

  function RemovalsOf(cfg: Cfg, s: Store, ops: seq<Op>, id: int): nat
    decreases ops
  {
    if ops == [] then 0
    else
      Count(ops[0].Act? && ops[0].action.Rm? && ops[0].action.msgId == id
            && Evaluate(cfg, ops[0].env, s, ops[0].action).1 == REMOVED)
      + RemovalsOf(cfg, Step(cfg, s, ops[0]), ops[1..], id)
  }

  lemma ActKeepsNotRemovable(cfg: Cfg, env: Env, s: Store, a: Action, id: int)
    requires Valid(s) && !Removable(s, id)
    ensures !Removable(Evaluate(cfg, env, s, a).0, id)
  {
    var r := Evaluate(cfg, env, s, a).1;
    if StoredId(r).Some? {
      StoredSend(cfg, env, s, a);
    } else if r == REMOVED {
      ReportedRemoval(cfg, env, s, a);
    } else {
      OtherwiseUntouched(cfg, env, s, a);
    }
  }

  /** A message that cannot be removed any more stays so. */
  lemma NotRemovableStays(cfg: Cfg, s: Store, op: Op, id: int)
    requires Valid(s) && !Removable(s, id)
    ensures !Removable(Step(cfg, s, op), id)
  {
    match op
    case Insert(_, _, _, _) =>
    case Delete(_, _) =>
    case Act(env, a) => ActKeepsNotRemovable(cfg, env, s, a, id);
  }

  /** A successful removal needs a removable message and leaves it not removable. */
  lemma RemovalUsesUp(cfg: Cfg, env: Env, s: Store, a: Action)
    requires Valid(s) && Evaluate(cfg, env, s, a).1 == REMOVED
    ensures a.Rm? && Removable(s, a.msgId) && !Removable(Evaluate(cfg, env, s, a).0, a.msgId)
  {
    ReportedRemoval(cfg, env, s, a);
    var m := FindMsg(Live(s), a.msgId).value;
    var age := SecondsDiff(env.now, m.sentAt);
    forall r | r in Evaluate(cfg, env, s, a).0.log && r.id == a.msgId
      ensures !IsLive(r)
    {
      SetDeletedRow(s.log, a.msgId, age, r);
    }
  }

  /** In any run, user deletions and later sends included, each message is removed at
      most once, and never if it was already deleted. */
  lemma {:induction false} RemovedAtMostOnce(cfg: Cfg, s: Store, ops: seq<Op>, id: int)
    requires Valid(s)
    ensures RemovalsOf(cfg, s, ops, id) <= 1
    ensures !Removable(s, id) ==> RemovalsOf(cfg, s, ops, id) == 0 && !Removable(Run(cfg, s, ops), id)
    decreases ops
  {
    if ops != [] {
      var t := Step(cfg, s, ops[0]);
      StepKeepsValid(cfg, s, ops[0]);
      RemovedAtMostOnce(cfg, t, ops[1..], id);
      if !Removable(s, id) {
        NotRemovableStays(cfg, s, ops[0], id);
      }
      if ops[0].Act? && Evaluate(cfg, ops[0].env, s, ops[0].action).1 == REMOVED {
        RemovalUsesUp(cfg, ops[0].env, s, ops[0].action);
      }
    }
  }

  /** An rm of a message that is not removable changes nothing, reports no removal
      and, for a verified user and a working query, answers not-found. */
  lemma RmNotFound(cfg: Cfg, env: Env, s: Store, c: Constr, id: int)
    requires Valid(s) && !Removable(s, id)
    ensures var (t, r) := Evaluate(cfg, env, s, Rm(c, id));
            && t == s && r != REMOVED
            && (Verify(cfg, env, s, c).Known? && QRm !in env.fails ==> r == Status(NOT_FOUND))
  {
  }

  /** After its removal, whatever happens in between, a message is in no inbox and
      every later rm of it is answered not-found. */
  lemma LaterRmNotFound(cfg: Cfg, s: Store, env: Env, rm: Action, ops: seq<Op>, env': Env, c: Constr, who: int)
    requires Valid(s) && rm.Rm? && Evaluate(cfg, env, s, rm).1 == REMOVED
    ensures var t := Run(cfg, Evaluate(cfg, env, s, rm).0, ops);
            && (forall m :: m in InboxRows(t, who) ==> m.id != rm.msgId)
            && Evaluate(cfg, env', t, Rm(c, rm.msgId)).0 == t
            && (Verify(cfg, env', t, c).Known? && QRm !in env'.fails ==>
                  Evaluate(cfg, env', t, Rm(c, rm.msgId)).1 == Status(NOT_FOUND))
  {
    var t0 := Evaluate(cfg, env, s, rm).0;
    StepKeepsValid(cfg, s, Act(env, rm));
    RemovalUsesUp(cfg, env, s, rm);
    RemovedAtMostOnce(cfg, t0, ops, rm.msgId);
    ReachableValid(cfg, t0, ops);
    var t := Run(cfg, t0, ops);
    RmNotFound(cfg, env', t, c, rm.msgId);
    InboxHoldsLiveMessages(t, who);
  }

  // ---- The clock, and the inbox ----

  ghost predicate ClockBound(s: Store, t: int) {
    ClockOrdered(s.log) && forall m :: m in s.log ==> m.sentAt <= t
  }

  /** The database clock never runs backwards, from `t` on. */
  predicate ClockForward(ops: seq<Op>, t: int) {
    ops == []
    || (if ops[0].Act? then t <= ops[0].env.now && ClockForward(ops[1..], ops[0].env.now)
        else ClockForward(ops[1..], t))
  }

  lemma MarkKeepsClock(s: Store, id: int, age: int, t: int)
    requires ClockBound(s, t)
    ensures ClockBound(s.(log := SetDeleted(s.log, id, age)), t)
  {
  }

  lemma ActKeepsClock(cfg: Cfg, env: Env, s: Store, a: Action)
    requires Valid(s) && ClockBound(s, env.now)
    ensures ClockBound(Evaluate(cfg, env, s, a).0, env.now)
  {
    var r := Evaluate(cfg, env, s, a).1;
    if StoredId(r).Some? {
      StoredSend(cfg, env, s, a);
    } else if r == REMOVED {
      ReportedRemoval(cfg, env, s, a);
      MarkKeepsClock(s, a.msgId, SecondsDiff(env.now, FindMsg(Live(s), a.msgId).value.sentAt), env.now);
    } else {
      OtherwiseUntouched(cfg, env, s, a);
    }
  }

  lemma StepKeepsClock(cfg: Cfg, s: Store, op: Op, t: int)
    requires Valid(s) && ClockBound(s, t)
    requires op.Act? ==> t <= op.env.now
    ensures ClockBound(Step(cfg, s, op), if op.Act? then op.env.now else t)
  {
    match op
    case Insert(_, _, _, _) =>
    case Delete(id, _) => FilterKeepsClock(s.log, NotAbout(id));
    case Act(env, a) => ActKeepsClock(cfg, env, s, a);
  }

  lemma {:induction false} ReachableClock(cfg: Cfg, s: Store, ops: seq<Op>, t: int)
    requires Valid(s) && ClockBound(s, t) && ClockForward(ops, t)
    ensures ClockOrdered(Run(cfg, s, ops).log)
    decreases ops
  {
    if ops != [] {
      StepKeepsValid(cfg, s, ops[0]);
      StepKeepsClock(cfg, s, ops[0], t);
      ReachableClock(cfg, Step(cfg, s, ops[0]), ops[1..], if ops[0].Act? then ops[0].env.now else t);
    }
  }

  /** The messages of the first `k` inbox responses, one page after the other. */
  function PagesRead(cfg: Cfg, env: Env, s: Store, c: Constr, k: nat): seq<MsgOut>
    decreases k
  {
    if k == 0 then []
    else
      var r := Evaluate(cfg, env, s, Inbox(c, k)).1;
      PagesRead(cfg, env, s, c, k - 1) + if r.Messages? then r.msgs else []
  }

  /** A page whose offset fits 32 bits is the slice it names. */
  lemma PageIsSlice(cfg: Cfg, env: Env, s: Store, c: Constr, page: nat)
    requires Verify(cfg, env, s, c).Known? && QInbox !in env.fails
    requires 0 <= cfg.pageInbox && 1 <= page && 0 <= cfg.pageInbox * (page - 1) <= INT32_MAX
    ensures var rows := InboxRows(s, Verify(cfg, env, s, c).id);
            Evaluate(cfg, env, s, Inbox(c, page)).1
            == Messages(ExportAll(Slice(rows, cfg.pageInbox, cfg.pageInbox * (page - 1))))
  {
    assert Offset(cfg, page) == cfg.pageInbox * (page - 1);
    assert AllowedTo(Verify(cfg, env, s, c).role, Inbox(c, page));
  }

  lemma NextPageRead(cfg: Cfg, env: Env, s: Store, c: Constr, k: nat)
    requires Verify(cfg, env, s, c).Known? && QInbox !in env.fails
    requires 0 < cfg.pageInbox && 1 <= k && 0 <= cfg.pageInbox * (k - 1) <= INT32_MAX
    ensures PagesRead(cfg, env, s, c, k)
            == PagesRead(cfg, env, s, c, k - 1)
               + ExportAll(Slice(InboxRows(s, Verify(cfg, env, s, c).id), cfg.pageInbox, cfg.pageInbox * (k - 1)))
  {
    PageIsSlice(cfg, env, s, c, k);
  }

  lemma EarlierOffset(limit: int, k: nat)
    requires 0 < limit && 1 <= k && limit * (k - 1) <= INT32_MAX
    ensures limit * (k - 1 - 1) <= INT32_MAX && 0 <= limit * (k - 1)
  {
    assert limit * (k - 1 - 1) == limit * (k - 1) - limit;
  }

  lemma {:induction false} PagesReadAreSlices(cfg: Cfg, env: Env, s: Store, c: Constr, k: nat)
    requires Verify(cfg, env, s, c).Known? && QInbox !in env.fails
    requires 0 < cfg.pageInbox && cfg.pageInbox * (k - 1) <= INT32_MAX
    ensures PagesRead(cfg, env, s, c, k)
            == ExportAll(Pages(InboxRows(s, Verify(cfg, env, s, c).id), cfg.pageInbox, k))
    decreases k
  {
    if k > 0 {
      var limit := cfg.pageInbox;
      EarlierOffset(limit, k);
      PagesReadAreSlices(cfg, env, s, c, k - 1);
      NextPageRead(cfg, env, s, c, k);
      var rows := InboxRows(s, Verify(cfg, env, s, c).id);
      ExportConcat(Pages(rows, limit, k - 1), Slice(rows, limit, limit * (k - 1)));
    }
  }

  lemma ExportConcat(xs: seq<Msg>, ys: seq<Msg>)
    ensures ExportAll(xs + ys) == ExportAll(xs) + ExportAll(ys)
  {
  }

  /** After any run under a clock that never runs backwards, a verified user who asks
      for pages 1 to k, enough of them and with offsets that fit 32 bits, reads
      exactly the live messages sent to them, each once, latest first. */
  lemma InboxReadsTheLogBackwards(cfg: Cfg, ops: seq<Op>, t: int, env: Env, c: Constr, k: nat)
    requires ClockForward(ops, t)
    requires var s := Run(cfg, EMPTY, ops);
             && Verify(cfg, env, s, c).Known? && QInbox !in env.fails
             && 0 < cfg.pageInbox && cfg.pageInbox * (k - 1) <= INT32_MAX
             && cfg.pageInbox * k >= |InboxRows(s, Verify(cfg, env, s, c).id)|
    ensures var s := Run(cfg, EMPTY, ops);
            PagesRead(cfg, env, s, c, k)
            == ExportAll(Reverse(Filter(s.log, LiveFor(Verify(cfg, env, s, c).id))))
  {
    var s := Run(cfg, EMPTY, ops);
    var me := Verify(cfg, env, s, c).id;
    ReachableValid(cfg, EMPTY, ops);
    ReachableClock(cfg, EMPTY, ops, t);
    InboxIsReversedLog(s, me);
    PagesReadAreSlices(cfg, env, s, c, k);
    PagesPartition(InboxRows(s, me), cfg.pageInbox, k);
  }

  /** Serial ids bound the log, so no inbox holds 2^31 messages. */
  lemma InboxFits(s: Store, recipient: int)
    requires Valid(s)
    ensures |InboxRows(s, recipient)| <= INT32_MAX
  {
    IdsBoundLog(s.log, s.nextMsgId);
    OrderedMultiset(Live(s));
    assert |Ordered(Live(s))| == |multiset(Ordered(Live(s)))| == |multiset(Live(s))| == |Live(s)|;
  }

  lemma {:induction false} IdsBoundLog(log: seq<Msg>, next: int)
    requires Increasing(log) && 1 <= next
    requires forall i :: 0 <= i < |log| ==> 1 <= log[i].id < next
    ensures |log| < next
  {
    if log != [] {
      var n := |log| - 1;
      IdsBoundLog(log[..n], log[n].id);
    }
  }

  /** A page is answered with the slice it names exactly when its offset fits 32 bits
      or wraps around to somewhere past the end. */
  lemma PageCorrectIff(cfg: Cfg, env: Env, s: Store, c: Constr, page: nat)
    requires Valid(s) && Verify(cfg, env, s, c).Known? && QInbox !in env.fails
    requires 0 <= cfg.pageInbox && 1 <= page && 0 <= cfg.pageInbox * (page - 1)
    ensures var rows := InboxRows(s, Verify(cfg, env, s, c).id);
            Evaluate(cfg, env, s, Inbox(c, page)).1
            == Messages(ExportAll(Slice(rows, cfg.pageInbox, cfg.pageInbox * (page - 1))))
            <==> cfg.pageInbox * (page - 1) <= INT32_MAX || Offset(cfg, page) >= |rows|
  {
    var rows := InboxRows(s, Verify(cfg, env, s, c).id);
    var exact := cfg.pageInbox * (page - 1);
    InboxFits(s, Verify(cfg, env, s, c).id);
    if exact <= INT32_MAX {
      PageIsSlice(cfg, env, s, c, page);
    } else {
      assert cfg.pageInbox > 0;
      assert Slice(rows, cfg.pageInbox, exact) == [];
      var shown := InboxPage(env, s, cfg.pageInbox, Offset(cfg, page), Verify(cfg, env, s, c).id);
      assert shown.Some? ==> (shown.value == [] <==> Offset(cfg, page) >= |rows|);
      assert |ExportAll([])| == 0;
    }
  }

  /** With pages of four messages, page 2^30 + 1 of any inbox that is not empty shows
      the first page again, and that is wrong: no message belongs there. */
  lemma FarPageWraps(cfg: Cfg, env: Env, s: Store, c: Constr)
    requires Valid(s) && Verify(cfg, env, s, c).Known? && QInbox !in env.fails
    requires cfg.pageInbox == 4 && InboxRows(s, Verify(cfg, env, s, c).id) != []
    ensures var rows := InboxRows(s, Verify(cfg, env, s, c).id);
            && Evaluate(cfg, env, s, Inbox(c, 0x4000_0001)).1 == Evaluate(cfg, env, s, Inbox(c, 1)).1
            && Evaluate(cfg, env, s, Inbox(c, 0x4000_0001)).1 != Messages(ExportAll(Slice(rows, 4, 4 * 0x4000_0000)))
            && Slice(rows, 4, 4 * 0x4000_0000) == []
  {
    assert Offset(cfg, 0x4000_0001) == 0 == Offset(cfg, 1);
    InboxFits(s, Verify(cfg, env, s, c).id);
    PageCorrectIff(cfg, env, s, c, 0x4000_0001);
  }

  /** The sample pro once the sample member has written. */
  function OneMessage(): Store {
    Appended(MemberAndPro(), FirstMsg(1, 2))
  }

  lemma MemberAndProValid()
    ensures Valid(MemberAndPro())
  {
    var s := MemberAndPro();
    assert s.users[0].id == 2 && s.users[1].id == 1;
    assert s.users[0] in s.users && s.users[1] in s.users;
    assert Ids(s.users) == {1, 2};
  }

  lemma OneMessageStore()
    ensures Valid(OneMessage()) && FirstMsg(1, 2) in OneMessage().log
  {
    MemberAndProValid();
    var s := MemberAndPro();
    assert s.users[0].id == 2 && s.users[1].id == 1;
    assert s.users[0] in s.users && s.users[1] in s.users;
    InsertedIsAppended(s, 0, 1, 2, "hi");
    InsertMsgKeepsValid(s, 0, 1, 2, "hi");
  }

  /** A concrete inbox of one message: its far page, which should be empty, shows it. */
  lemma FarPageShowsFirst()
    ensures var cfg, env := SampleCfg(AsWritten), Env(0, false, {});
            var far := Evaluate(cfg, env, OneMessage(), Inbox(SAMPLE_CONSTR, 0x4000_0001)).1;
            far != Messages([]) && far == Evaluate(cfg, env, OneMessage(), Inbox(SAMPLE_CONSTR, 1)).1
  {
    var env, s := Env(0, false, {}), OneMessage();
    OneMessageStore();
    assert s.users[0].id == 2 && s.users[0] in s.users;
    SampleVerified(AsWritten, env, s, Pro);
    InboxHoldsLiveMessages(s, 2);
    assert FirstMsg(1, 2) in InboxRows(s, 2);
    FarPageWraps(SampleCfg(AsWritten), env, s, SAMPLE_CONSTR);
    assert ExportAll([]) == [];
  }

  /** The sample pro's reply to the member who wrote to it is stored and reported. */
  lemma ReplyIsSent()
    ensures Evaluate(SampleCfg(AsDocumented), Env(0, false, {}), OneMessage(), Send(SAMPLE_CONSTR, 1, Text(2, "hi"))).1
            == Sent(2)
  {
    var cfg, env, s := SampleCfg(AsDocumented), Env(0, false, {}), OneMessage();
    OneMessageStore();
    assert s.users[0].id == 2 && s.users[0] in s.users;
    SampleVerified(AsDocumented, env, s, Pro);
    assert HasLive(s, 1, 2);
    ProMayReply(cfg, env, s, Send(SAMPLE_CONSTR, 1, Text(2, "hi")));
  }
}
