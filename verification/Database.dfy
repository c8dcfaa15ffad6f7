/** The server's state changed in place: the triggers and functions of the database,
    `action_evaluate` and `tchatator413_interpret`, each proved against the store
    functions. */
module Database {
  import opened Base
  import opened Uuid
  import opened Json
  import opened Tables
  import opened Inbox
  import opened Actions
  import opened Parse
  import opened Batch

  class Db {
    var users: seq<UserRow>
    var members: map<int, string>
    var pros: map<int, string>
    var admins: set<int>
    var log: seq<Msg>
    var nextMsgId: int

    function Contents(): Store
      reads this
    {
      Store(users, members, pros, admins, log, nextMsgId)
    }

    constructor ()
      ensures Contents() == EMPTY
    {
      users, members, pros, admins, log, nextMsgId := [], map[], map[], {}, [], 1;
    }

    // ---- Users ----

    /** `_insert_user`: the primary key and the not-null constraint on the id. */
    method InsertUser(id: Option<int>, key: Uuid, hash: Option<string>) returns (ok: bool)
      modifies this`users
      ensures ok <==> id.Some? && id.value !in Ids(old(users))
      ensures users == old(users) + if ok then [UserRow(id.value, key, hash)] else []
    {
      if id.None? {
        return false;
      }
      for i := 0 to |users|
        invariant forall j :: 0 <= j < i ==> users[j].id != id.value
      {
        if users[i].id == id.value {
          assert users[i] in users;
          return false;
        }
      }
      users := users + [UserRow(id.value, key, hash)];
      return true;
    }

    /** The insert triggers of the `member`, `pro` and `admin` views; a failing
        statement is rolled back as a whole. */
    method InsertThrough(id: Option<int>, key: Uuid, hash: Option<string>, kind: Kind) returns (ok: bool)
      modifies this
      ensures (Contents(), ok) == AddUser(old(Contents()), id, key, hash, kind)
    {
      var before := users;
      ok := InsertUser(id, key, hash);
      if !ok {
        assert users == before;
        return;
      }
      match kind {
        case AsMember(name) =>
          if name in members.Values {
            users := before;
            return false;
          }
          members := members[id.value := name];
        case AsPro(name) =>
          pros := pros[id.value := name];
        case AsAdmin =>
          admins := admins + {id.value};
      }
    }

    /** The delete triggers of these views, with the cascades of the foreign keys. */
    method DeleteThrough(id: int, kind: Kind)
      modifies this
      ensures Contents() == DeleteUser(old(Contents()), id, kind)
    {
      var there := match kind
        case AsMember(_) => id in members
        case AsPro(_) => id in pros
        case AsAdmin => id in admins;
      if !there || id !in Ids(users) {
        return;
      }
      users := Filter(users, NotUser(id));
      members := members - {id};
      pros := pros - {id};
      admins := admins - {id};
      log := Filter(log, NotAbout(id));
    }

    // ---- Messages ----

    /** `send_msg` and `_insert_msg`, called by `db_send_msg`. */
    method SendMsg(env: Env, sender: int, dest: int, content: string) returns (res: int)
      modifies this`log, this`nextMsgId
      ensures (Contents(), res) == DbSend(env, old(Contents()), sender, dest, content)
    {
      if QSend in env.fails {
        return HANDLED;
      }
      if env.blocked {
        return ERROR;
      }
      if nextMsgId > INT32_MAX {
        return HANDLED;
      }
      var m := Msg(nextMsgId, content, env.now, None, None, None, NullIfRoot(sender), dest);
      nextMsgId := nextMsgId + 1;
      if QInsert in env.fails && m.id > 0 {
        return HANDLED;
      }
      if !Checks(m) || (m.sender.Some? && sender !in Ids(users)) || dest !in Ids(users) {
        return HANDLED;
      }
      log := log + [m];
      return m.id;
    }

    /** `ftg_msg_delete` under `db_rm_msg`. */
    method RmMessage(env: Env, id: int) returns (res: int)
      modifies this`log
      ensures (Contents(), res)
              == if QRm in env.fails then (old(Contents()), HANDLED) else RmMsg(old(Contents()), env.now, id)
    {
      if QRm in env.fails {
        return HANDLED;
      }
      var row := FindMsg(Live(Contents()), id);
      if row.None? {
        return ERROR;
      }
      var age := SecondsDiff(env.now, row.value.sentAt);
      if !(INT32_MIN <= age <= INT32_MAX) || !Checks(row.value.(deletedAge := Some(age))) {
        return HANDLED;
      }
      log := SetDeleted(log, id, age);
      return OK;
    }

    /** `db_get_inbox`: copies the selected rows into a fresh array. */
    method GetInbox(env: Env, limit: int, offset: int, recipient: int) returns (ok: bool, msgs: array<MsgOut>)
      ensures ok <==> InboxPage(env, Contents(), limit, offset, recipient).Some?
      ensures ok ==> msgs[..] == ExportAll(InboxPage(env, Contents(), limit, offset, recipient).value)
    {
      var result := InboxPage(env, Contents(), limit, offset, recipient);
      if result.None? {
        return false, new MsgOut[0];
      }
      var rows := result.value;
      var ntuples := Min(|rows|, limit);
      msgs := new MsgOut[ntuples];
      for i := 0 to ntuples
        invariant forall j :: 0 <= j < i ==> msgs[j] == Export(rows[j])
      {
        msgs[i] := MsgOut(
          rows[i].id, rows[i].content, rows[i].sentAt / 1_000_000,
          if rows[i].readAge.Some? then rows[i].readAge.value else 0,
          if rows[i].editedAge.Some? then rows[i].editedAge.value else 0,
          0,
          if rows[i].sender.Some? then rows[i].sender.value else 0,
          recipient);
        assert rows[i] in InboxRows(Contents(), recipient);
      }
      return true, msgs;
    }

    // ---- Actions ----

    /** The `send` branch of `action_evaluate` for a verified user. */
    method EvaluateSend(cfg: Cfg, env: Env, role: Role, id: int, dest: int, content: Text) returns (rep: Response)
      modifies this`log, this`nextMsgId
      ensures (Contents(), rep) == PerformSend(cfg, env, old(Contents()), Known(role, id), dest, content)
    {
      var destRole := DestRole(env, Contents(), dest);
      if destRole.Err? {
        return Status(if destRole.error == HANDLED then INTERNAL_SERVER_ERROR else NOT_FOUND);
      }
      if content.len > cfg.maxMsgLength {
        return Status(PAYLOAD_TOO_LARGE);
      }
      var stops := cfg.reading.AsDocumented?;
      var broken := None;
      if id == dest {
        broken := Some("no_send_self");
        if stops {
          return ErrorResponse(Invariant("no_send_self"));
        }
      }
      if role.Member? && !destRole.value.Pro? {
        broken := Some("client_send_pro");
        if stops {
          return ErrorResponse(Invariant("client_send_pro"));
        }
      }
      if role.Pro? && (!destRole.value.Member? || CountMsg(cfg, env, Contents(), dest, id) == 0) {
        broken := Some("pro_responds_client");
        if stops {
          return ErrorResponse(Invariant("pro_responds_client"));
        }
      }
      var res := SendMsg(env, id, dest, content.val);
      if res == HANDLED {
        return Status(INTERNAL_SERVER_ERROR);
      }
      if res == ERROR {
        return Status(FORBIDDEN);
      }
      if broken.Some? {
        return Overwritten(res, broken.value);
      }
      return Sent(res);
    }

    /** `action_evaluate`. */
    method ActionEvaluate(cfg: Cfg, env: Env, a: Action) returns (rep: Response)
      modifies this`log, this`nextMsgId
      ensures (Contents(), rep) == Evaluate(cfg, env, old(Contents()), a)
    {
      if a.Failed? {
        return ErrorResponse(a.error);
      }
      var user := Verify(cfg, env, Contents(), a.constr);
      if user.Unavailable? {
        return Status(INTERNAL_SERVER_ERROR);
      }
      if user.Refused? {
        return Status(UNAUTHORIZED);
      }
      if !AllowedTo(user.role, a) {
        return Status(FORBIDDEN);
      }
      match a {
        case Whois(_, id) =>
          rep := GetUser(env, Contents(), id);
        case Send(_, dest, content) =>
          rep := EvaluateSend(cfg, env, user.role, user.id, dest, content);
        case Inbox(_, page) =>
          var ok, msgs := GetInbox(env, cfg.pageInbox, Offset(cfg, page), user.id);
          rep := if ok then Messages(msgs[..]) else Status(INTERNAL_SERVER_ERROR);
        case Rm(_, id) =>
          var res := RmMessage(env, id);
          rep := if res == HANDLED then Status(INTERNAL_SERVER_ERROR)
                 else if res == ERROR then Status(NOT_FOUND)
                 else Done("rm");
        case _ =>
          rep := Done(Name(a));
      }
    }

    // ---- Requests ----

    /** The loop of `tchatator413_interpret` over a list. */
    method InterpretList(cfg: Cfg, calls: seq<Call>) returns (output: seq<Response>, aborted: bool)
      modifies this`log, this`nextMsgId
      ensures Outcome(Contents(), output, aborted) == RunBatch(cfg, old(Contents()), calls)
    {
      output := [];
      for i := 0 to |calls|
        invariant Outcome(Contents(), output, false) == RunBatch(cfg, old(Contents()), calls[..i])
      {
        BatchConcat(cfg, old(Contents()), calls[..i], [calls[i]]);
        assert calls[..i] + [calls[i]] == calls[..i + 1];
        BatchConcat(cfg, old(Contents()), calls[..i + 1], calls[i + 1..]);
        assert calls[..i + 1] + calls[i + 1..] == calls;
        if calls[i].json.JNull? {
          return output, true;
        }
        var rep := ActionEvaluate(cfg, calls[i].env, ParseAction(calls[i].env, Contents(), calls[i].json));
        output := output + [rep];
      }
      assert calls[..|calls|] == calls;
      return output, false;
    }

    /** `tchatator413_interpret`. */
    method InterpretRequest(cfg: Cfg, input: Json, envs: nat -> Env) returns (output: seq<Response>, aborted: bool)
      modifies this`log, this`nextMsgId
      ensures Outcome(Contents(), output, aborted) == Interpret(cfg, old(Contents()), input, envs)
    {
      var calls := CallsOf(input, envs);
      if calls.None? {
        return [ErrorResponse(WrongType("request", input, TObject))], false;
      }
      output, aborted := InterpretList(cfg, calls.value);
    }
  }
}
