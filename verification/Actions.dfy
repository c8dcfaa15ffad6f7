/** Actions and their evaluation (src/server/action.c over src/server/db.c), as a
    function from a store to a store and a response. */
module Actions {
  import opened Base
  import opened Uuid
  import opened Constr
  import opened Json
  import opened Tables
  import opened Inbox

  // ---- Configuration and surroundings ----

  /** How two places of the source are read.  As written, a broken send rule sets
      the error but goes on to the insert, and the message count is the number of
      result rows, always one.  As documented, a broken rule ends the action and
      the count is the number of live messages. */
  datatype Reading = AsWritten | AsDocumented

  datatype Cfg = Cfg(
    rootKey: Uuid, rootHash: string, checkpw: (Option<string>, string) -> bool,
    maxMsgLength: nat, pageInbox: int, reading: Reading)

  /** The queries an action can issue, each at most once.  A send can fail before its
      insert draws an id (QSend) or after (QInsert). */
  datatype Query = QVerify | QRole | QCount | QSend | QInsert | QInbox | QUser | QRm | QName | QBusiness

  /** What one action meets: the database clock, whether a block forbids the send
      and which queries fail for reasons outside the store. */
  datatype Env = Env(now: int, blocked: bool, fails: set<Query>)

  // ---- Actions and responses ----

  datatype Role = Admin | Member | Pro

  /** A string argument: its byte length and the C string copied from it. */
  datatype Text = Text(len: nat, val: string)

  datatype Error =
    | WrongType(location: string, actual: Json, expected: JsonType)
    | MissingKey(location: string)
    | Invalid(location: string, bad: Json, reason: string)
    | RateLimit(nextRequestAt: int)
    | Invariant(name: string)
    | Other(status: int)

  datatype Action =
    | Failed(error: Error)
    | Whois(constr: Constr, userId: int)
    | Send(constr: Constr, dest: int, content: Text)
    | Motd(constr: Constr)
    | Inbox(constr: Constr, page: int)
    | Outbox(constr: Constr, page: int)
    | Edit(constr: Constr, msgId: int, content: Text)
    | Rm(constr: Constr, msgId: int)
    | Block(constr: Constr, userId: int)
    | Unblock(constr: Constr, userId: int)
    | Ban(constr: Constr, userId: int)
    | Unban(constr: Constr, userId: int)

  /** The name of an action in a request, which also tags its response. */
  function Name(a: Action): string {
    match a
    case Failed(_) => "error"
    case Whois(_, _) => "whois"
    case Send(_, _, _) => "send"
    case Motd(_) => "motd"
    case Inbox(_, _) => "inbox"
    case Outbox(_, _) => "outbox"
    case Edit(_, _, _) => "edit"
    case Rm(_, _) => "rm"
    case Block(_, _) => "block"
    case Unblock(_, _) => "unblock"
    case Ban(_, _) => "ban"
    case Unban(_, _) => "unban"
  }

  /** A message record; 0 stands for an absent age and for root. */
  datatype MsgOut = MsgOut(id: int, content: string, sentAt: int, readAge: int, editedAge: int, deletedAge: int,
                           sender: int, recipient: int)

  /** `Overwritten` is what remains of an invariant error once the message id has
      been written over its tag in the response union. */
  datatype Response =
    | ErrorResponse(error: Error)
    | Overwritten(tag: int, name: string)
    | User(id: int, role: Role, name: string)
    | Sent(msgId: int)
    | Messages(msgs: seq<MsgOut>)
    | Done(action: string)

  const UNAUTHORIZED := 401
  const FORBIDDEN := 403
  const NOT_FOUND := 404
  const PAYLOAD_TOO_LARGE := 413
  const INTERNAL_SERVER_ERROR := 500

  function Status(status: int): Response {
    ErrorResponse(Other(status))
  }

  // ---- Identification ----

  /** `validate_db_role`: the view's 0 for admins is not a role. */
  function ValidateRole(role: Option<int>): Option<Role> {
    match role
    case Some(1) => Some(Admin)
    case Some(2) => Some(Member)
    case Some(4) => Some(Pro)
    case _ => None
  }

  /** The first row a scan finds; api keys are not unique. */
  function FirstByKey(users: seq<UserRow>, key: Uuid): (r: Option<UserRow>)
    ensures r.Some? ==> r.value in users && r.value.apiKey == key
    ensures r.None? <==> forall u :: u in users ==> u.apiKey != key
  {
    if users == [] then None
    else if users[0].apiKey == key then Some(users[0])
    else
      assert users == [users[0]] + users[1..];
      FirstByKey(users[1..], key)
  }

  /** `check_password`; a null hash reaches it as an empty string. */
  function CheckPassword(cfg: Cfg, password: Option<string>, hash: Option<string>): bool {
    password.Some? && cfg.checkpw(password, if hash.Some? then hash.value else "")
  }

  datatype Identity = Unavailable | Refused | Known(role: Role, id: int)

  /** `db_verify_user_constr`. */
  function Verify(cfg: Cfg, env: Env, s: Store, c: Constr): Identity {
    if c.apiKey == cfg.rootKey && cfg.checkpw(c.password, cfg.rootHash) then Known(Admin, 0)
    else if QVerify in env.fails then Unavailable
    else
      match FirstByKey(s.users, c.apiKey)
      case None => Refused
      case Some(u) =>
        var view := ViewRole(s, u.id);
        match ValidateRole(if view.Some? then view.value else None)
        case None => Unavailable
        case Some(role) => if CheckPassword(cfg, c.password, u.hash) then Known(role, u.id) else Refused
  }

  /** `db_get_user_role`: HANDLED, ERROR or a role. */
  function DestRole(env: Env, s: Store, id: int): Result<Role, int> {
    if QRole in env.fails then Err(HANDLED)
    else
      match ViewRole(s, id)
      case None => Err(ERROR)
      case Some(view) => match ValidateRole(view) { case None => Err(HANDLED) case Some(role) => Ok(role) }
  }

  predicate AllowedTo(role: Role, a: Action) {
    (a.Block? || a.Unblock? || a.Ban? || a.Unban?) ==> !role.Member?
  }

  // ---- Send ----

  /** `db_count_msg`; a failing query counts -1, which the caller takes for true. */
  function CountMsg(cfg: Cfg, env: Env, s: Store, sender: int, recipient: int): int {
    if QCount in env.fails then HANDLED
    else if cfg.reading.AsWritten? then 1
    else CountLive(s, sender, recipient)
  }

  /** The names of the send rules that are broken, in the order they are tested. */
  function BrokenRules(cfg: Cfg, env: Env, s: Store, who: Identity, dest: int, destRole: Role): seq<string>
    requires who.Known?
  {
    (if who.id == dest then ["no_send_self"] else [])
    + (if who.role.Member? && !destRole.Pro? then ["client_send_pro"] else [])
    + (if who.role.Pro? && (!destRole.Member? || CountMsg(cfg, env, s, dest, who.id) == 0)
       then ["pro_responds_client"] else [])
  }

  /** `db_send_msg`.  An insert that fails late leaves no row but has used its id up. */
  function DbSend(env: Env, s: Store, sender: int, dest: int, content: string): (Store, int) {
    if QSend in env.fails then (s, HANDLED)
    else
      var (t, res) := SendMsg(s, env.now, env.blocked, sender, dest, content);
      if res > 0 && QInsert in env.fails then (s.(nextMsgId := t.nextMsgId), HANDLED) else (t, res)
  }

  function PerformSend(cfg: Cfg, env: Env, s: Store, who: Identity, dest: int, content: Text): (Store, Response)
    requires who.Known?
  {
    match DestRole(env, s, dest)
    case Err(e) => (s, Status(if e == HANDLED then INTERNAL_SERVER_ERROR else NOT_FOUND))
    case Ok(destRole) =>
      if content.len > cfg.maxMsgLength then (s, Status(PAYLOAD_TOO_LARGE))
      else
        var broken := BrokenRules(cfg, env, s, who, dest, destRole);
        if broken != [] && cfg.reading.AsDocumented? then (s, ErrorResponse(Invariant(broken[0])))
        else
          var (t, res) := DbSend(env, s, who.id, dest, content.val);
          (t, if res == HANDLED then Status(INTERNAL_SERVER_ERROR)
              else if res == ERROR then Status(FORBIDDEN)
              else if broken == [] then Sent(res)
              else Overwritten(res, broken[|broken| - 1]))
  }

  // ---- The other actions ----

  function Age(age: Option<int>): int {
    if age.Some? then age.value else 0
  }

  /** A row of the inbox as `db_get_inbox` copies it; sent_at in whole seconds. */
  function Export(m: Msg): MsgOut {
    MsgOut(m.id, m.content, m.sentAt / 1_000_000, Age(m.readAge), Age(m.editedAge), 0, SenderId(m), m.recipient)
  }

  function ExportAll(rows: seq<Msg>): (r: seq<MsgOut>)
    ensures |r| == |rows| && forall i :: 0 <= i < |rows| ==> r[i] == Export(rows[i])
  {
    seq(|rows|, i requires 0 <= i < |rows| => Export(rows[i]))
  }

  /** The query of `db_get_inbox`; SQL refuses a negative limit or offset. */
  function InboxPage(env: Env, s: Store, limit: int, offset: int, recipient: int): Option<seq<Msg>> {
    if QInbox in env.fails || limit < 0 || offset < 0 then None
    else Some(Slice(InboxRows(s, recipient), limit, offset))
  }

  /** The offset of a page, computed in a C int. */
  function Offset(cfg: Cfg, page: int): int {
    Wrap32(cfg.pageInbox * (page - 1))
  }

  /** `db_get_user`. */
  function GetUser(env: Env, s: Store, id: int): Response {
    if QUser in env.fails then Status(INTERNAL_SERVER_ERROR)
    else
      match ViewRole(s, id)
      case None => Status(NOT_FOUND)
      case Some(view) =>
        match ValidateRole(view)
        case Some(Member) => User(id, Member, s.members[id])
        case Some(Pro) => User(id, Pro, s.pros[id])
        case _ => Status(INTERNAL_SERVER_ERROR)
  }

  /** `db_get_msg`, which reads `_msg` itself, deleted rows included. */
  function GetMsg(s: Store, id: int): Option<MsgOut> {
    match FindMsg(s.log, id)
    case None => None
    case Some(m) => Some(Export(m).(deletedAge := Age(m.deletedAge)))
  }

  function PerformRm(env: Env, s: Store, id: int): (Store, Response) {
    var (t, res) := if QRm in env.fails then (s, HANDLED) else RmMsg(s, env.now, id);
    (t, if res == HANDLED then Status(INTERNAL_SERVER_ERROR)
        else if res == ERROR then Status(NOT_FOUND)
        else Done("rm"))
  }

  function Perform(cfg: Cfg, env: Env, s: Store, who: Identity, a: Action): (Store, Response)
    requires who.Known?
  {
    match a
    case Whois(_, id) => (s, GetUser(env, s, id))
    case Send(_, dest, content) => PerformSend(cfg, env, s, who, dest, content)
    case Inbox(_, page) =>
      (s, match InboxPage(env, s, cfg.pageInbox, Offset(cfg, page), who.id)
          case None => Status(INTERNAL_SERVER_ERROR)
          case Some(rows) => Messages(ExportAll(rows)))
    case Rm(_, id) => PerformRm(env, s, id)
    case _ => (s, Done(Name(a)))
  }

  /** `action_evaluate`. */
  function Evaluate(cfg: Cfg, env: Env, s: Store, a: Action): (Store, Response) {
    if a.Failed? then (s, ErrorResponse(a.error))
    else
      match Verify(cfg, env, s, a.constr)
      case Unavailable => (s, Status(INTERNAL_SERVER_ERROR))
      case Refused => (s, Status(UNAUTHORIZED))
      case Known(role, id) =>
        if AllowedTo(role, a) then Perform(cfg, env, s, Known(role, id), a) else (s, Status(FORBIDDEN))
  }

  /** The message a response says was stored, if any. */
  function StoredId(r: Response): Option<int> {
    match r
    case Sent(id) => Some(id)
    case Overwritten(id, _) => Some(id)
    case _ => None
  }

  const REMOVED := Done("rm")
}
