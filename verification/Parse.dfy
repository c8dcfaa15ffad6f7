/** From JSON to actions (`action_parse` of src/server/action-json.c). */
module Parse {
  import opened Base
  import opened Uuid
  import opened Constr
  import opened Json
  import opened Tables
  import opened Actions
  import opened Effects

  const USER_KEY_LENGTH := 319

  // ---- User keys ----

  function Named(names: map<int, string>, name: string): UserRow -> bool {
    (u: UserRow) => u.id in names && names[u.id] == name
  }

  /** `db_get_user_id_by_name`: a member by its name, else the only pro of that name. */
  function IdByName(env: Env, s: Store, name: string): int {
    if QName in env.fails then HANDLED
    else
      var ms := Filter(s.users, Named(s.members, name));
      if ms != [] then ms[0].id
      else if QBusiness in env.fails then HANDLED
      else
        var ps := Filter(s.users, Named(s.pros, name));
        if |ps| == 1 then ps[0].id else ERROR
  }

  /** `get_user_id`.  The `user` view has no e-mail column, so that lookup always
      fails as a statement. */
  function UserId(env: Env, s: Store, j: Json): int {
    match j
    case JInt(n) => if Clamp32(n) > 0 then Clamp32(n) else ERROR
    case JString(t) =>
      if |t| > USER_KEY_LENGTH then ERROR
      else if '@' in CStr(t) then HANDLED
      else IdByName(env, s, CStr(t))
    case _ => ERROR
  }

  // ---- Arguments ----

  function Location(action: string, key: string): string {
    action + ".with." + key
  }

  function Arg(w: Json, action: string, key: string): Result<Json, Error> {
    match GetEx(w, key)
    case None => Err(MissingKey(Location(action, key)))
    case Some(j) => Ok(j)
  }

  function IntArg(w: Json, action: string, key: string): Result<int, Error> {
    var j :- Arg(w, action, key);
    if j.JInt? then Ok(Clamp32(j.n)) else Err(WrongType(Location(action, key), j, TInt))
  }

  function TextArg(w: Json, action: string, key: string): Result<Text, Error> {
    var j :- Arg(w, action, key);
    if j.JString? then Ok(Text(|j.s|, CStr(j.s))) else Err(WrongType(Location(action, key), j, TString))
  }

  function ConstrArg(w: Json, action: string): Result<Constr, Error> {
    var j :- Arg(w, action, "constr");
    if !j.JString? then Err(WrongType(Location(action, "constr"), j, TString))
    else
      match ParseConstr(j.s)
      case None => Err(Invalid(Location(action, "constr"), j, "invalid API key"))
      case Some(c) => Ok(c)
  }

  function UserArg(env: Env, s: Store, w: Json, action: string, key: string): Result<int, Error> {
    var j :- Arg(w, action, key);
    var id := UserId(env, s, j);
    if id == ERROR then Err(Invalid(Location(action, key), j, "invalid user key"))
    else if id == HANDLED then Err(Other(INTERNAL_SERVER_ERROR))
    else Ok(id)
  }

  function PageArg(w: Json, action: string): Result<int, Error> {
    match GetEx(w, "page")
    case None => Ok(1)
    case Some(j) =>
      var page :- IntArg(w, action, "page");
      if page < 1 then Err(Invalid(Location(action, "page"), j, "invalid page number")) else Ok(page)
  }

  // ---- Actions ----

  const USER_ACTIONS: set<string> := {"whois", "block", "unblock", "ban", "unban"}
  const OTHER_ACTIONS: set<string> := {"send", "motd", "inbox", "outbox", "edit", "rm"}

  function UserAction(name: string, c: Constr, user: int): Action {
    if name == "whois" then Whois(c, user)
    else if name == "block" then Block(c, user)
    else if name == "unblock" then Unblock(c, user)
    else if name == "ban" then Ban(c, user)
    else Unban(c, user)
  }

  /** The actions that take more than a user key, or less. */
  function OtherAction(env: Env, s: Store, name: string, c: Constr, w: Json): Result<Action, Error> {
    if name == "send" then
      var content :- TextArg(w, name, "content");
      var dest :- UserArg(env, s, w, name, "dest");
      Ok(Send(c, dest, content))
    else if name == "motd" then Ok(Motd(c))
    else if name == "inbox" then
      var page :- PageArg(w, name);
      Ok(Inbox(c, page))
    else if name == "outbox" then
      var page :- PageArg(w, name);
      Ok(Outbox(c, page))
    else if name == "edit" then
      var id :- IntArg(w, name, "msg_id");
      var content :- TextArg(w, name, "new_content");
      Ok(Edit(c, id, content))
    else
      var id :- IntArg(w, name, "msg_id");
      Ok(Rm(c, id))
  }

  /** Every known action reads its connection string first. */
  function ParseWith(env: Env, s: Store, name: string, w: Json): Result<Action, Error> {
    if name in USER_ACTIONS then
      var c :- ConstrArg(w, name);
      var user :- UserArg(env, s, w, name, "user");
      Ok(UserAction(name, c, user))
    else if name in OTHER_ACTIONS then
      var c :- ConstrArg(w, name);
      OtherAction(env, s, name, c, w)
    else Err(Other(INTERNAL_SERVER_ERROR))
  }

  function TryParse(env: Env, s: Store, j: Json): Result<Action, Error> {
    match GetEx(j, "do")
    case None => Err(MissingKey("action.do"))
    case Some(what) =>
      if !what.JString? then Err(WrongType("action", what, TString))
      else
        match GetEx(j, "with")
        case None => Err(MissingKey("action.with"))
        case Some(w) => ParseWith(env, s, CStr(what.s), w)
  }

  /** `action_parse`: what went wrong becomes an error action. */
  function ParseAction(env: Env, s: Store, j: Json): Action {
    match TryParse(env, s, j)
    case Ok(a) => a
    case Err(e) => Failed(e)
  }

  // ---- Requests ----

  /** An action a request can spell: positive 32-bit user ids and pages, 32-bit
      message ids, no NUL in strings. */
  predicate Renderable(a: Action) {
    && !a.Failed?
    && (a.constr.password.Some? ==> '\0' !in a.constr.password.value)
    && (a.Whois? || a.Block? || a.Unblock? || a.Ban? || a.Unban? ==> 1 <= a.userId <= INT32_MAX)
    && (a.Send? ==> 1 <= a.dest <= INT32_MAX)
    && (a.Inbox? || a.Outbox? ==> 1 <= a.page <= INT32_MAX)
    && (a.Edit? || a.Rm? ==> INT32_MIN <= a.msgId <= INT32_MAX)
    && (a.Send? || a.Edit? ==> a.content.len == |a.content.val| && '\0' !in a.content.val)
  }

  function ConstrField(a: Action): Field
    requires !a.Failed?
  {
    Field("constr", JString(PrintConstr(a.constr)))
  }

  function OtherFields(a: Action): seq<Field>
    requires !a.Failed?
  {
    match a
    case Send(_, dest, content) => [Field("dest", JInt(dest)), Field("content", JString(content.val))]
    case Inbox(_, page) => [Field("page", JInt(page))]
    case Outbox(_, page) => [Field("page", JInt(page))]
    case Edit(_, id, content) => [Field("msg_id", JInt(id)), Field("new_content", JString(content.val))]
    case Rm(_, id) => [Field("msg_id", JInt(id))]
    case Motd(_) => []
    case Whois(_, id) => [Field("user", JInt(id))]
    case Block(_, id) => [Field("user", JInt(id))]
    case Unblock(_, id) => [Field("user", JInt(id))]
    case Ban(_, id) => [Field("user", JInt(id))]
    case Unban(_, id) => [Field("user", JInt(id))]
  }

  function Args(a: Action): seq<Field>
    requires !a.Failed?
  {
    [ConstrField(a)] + OtherFields(a)
  }

  /** The request of an action, as the protocol document lays it out. */
  function Render(a: Action): Json
    requires !a.Failed?
  {
    JObject([Field("do", JString(Name(a))), Field("with", JObject(Args(a)))])
  }

  predicate TakesUser(a: Action) {
    a.Whois? || a.Block? || a.Unblock? || a.Ban? || a.Unban?
  }

  lemma NamesAreKnown(a: Action)
    requires !a.Failed?
    ensures Name(a) in USER_ACTIONS <==> TakesUser(a)
    ensures Name(a) in OTHER_ACTIONS <==> !TakesUser(a)
    ensures TakesUser(a) ==> UserAction(Name(a), a.constr, a.userId) == a
    ensures '\0' !in Name(a)
  {
  }

  /** The connection string is found, and any other argument among the others. */
  lemma ArgsFound(a: Action, key: string)
    requires !a.Failed?
    ensures GetEx(JObject(Args(a)), "constr") == Some(JString(PrintConstr(a.constr)))
    ensures key != "constr" ==> GetEx(JObject(Args(a)), key) == Find(OtherFields(a), key)
  {
  }

  lemma SecondFieldFound(f: Field, g: Field)
    requires f.key != g.key
    ensures Find([f, g], f.key) == Some(f.value) && Find([f, g], g.key) == Some(g.value)
  {
  }

  lemma UserActionParses(env: Env, s: Store, a: Action)
    requires Renderable(a) && TakesUser(a)
    ensures ParseWith(env, s, Name(a), JObject(Args(a))) == Ok(a)
  {
    ArgsFound(a, "user");
    NumericUserKeys(env, s, a.userId);
    NamesAreKnown(a);
    PrintParse(a.constr);
  }

  lemma OtherActionParses(env: Env, s: Store, a: Action)
    requires Renderable(a) && !TakesUser(a)
    ensures OtherAction(env, s, Name(a), a.constr, JObject(Args(a))) == Ok(a)
  {
    match a {
      case Send(_, dest, content) =>
        ArgsFound(a, "dest");
        ArgsFound(a, "content");
        NumericUserKeys(env, s, dest);
        SecondFieldFound(Field("dest", JInt(dest)), Field("content", JString(content.val)));
        CStrWhole(content.val);
      case Edit(_, id, content) =>
        ArgsFound(a, "msg_id");
        ArgsFound(a, "new_content");
        SecondFieldFound(Field("msg_id", JInt(id)), Field("new_content", JString(content.val)));
        CStrWhole(content.val);
      case Rm(_, _) => ArgsFound(a, "msg_id");
      case Inbox(_, _) => ArgsFound(a, "page");
      case Outbox(_, _) => ArgsFound(a, "page");
      case Motd(_) =>
    }
  }

  /** Every renderable action is read back from its request, whatever the store and
      even if every query fails. */
  lemma RenderParse(env: Env, s: Store, a: Action)
    requires Renderable(a)
    ensures ParseAction(env, s, Render(a)) == a
  {
    var j, w := Render(a), JObject(Args(a));
    SecondFieldFound(Field("do", JString(Name(a))), Field("with", w));
    NamesAreKnown(a);
    CStrWhole(Name(a));
    if TakesUser(a) {
      UserActionParses(env, s, a);
    } else {
      ArgsFound(a, "");
      PrintParse(a.constr);
      OtherActionParses(env, s, a);
    }
  }

  /** Page numbers from 1, 32-bit ids, never a user key that stands for an error, no
      NUL in strings and string arguments no longer than announced. */
  predicate Sane(a: Action) {
    && (a.Inbox? || a.Outbox? ==> 1 <= a.page <= INT32_MAX)
    && (a.Edit? || a.Rm? ==> INT32_MIN <= a.msgId <= INT32_MAX)
    && (a.Send? ==> a.dest !in {HANDLED, ERROR})
    && (a.Send? || a.Edit? ==> |a.content.val| <= a.content.len && '\0' !in a.content.val)
  }

  /** What parsing guarantees of any action it returns. */
  lemma ParsedActionsAreSane(env: Env, s: Store, j: Json)
    ensures Sane(ParseAction(env, s, j))
  {
    match TryParse(env, s, j)
    case Err(_) =>
    case Ok(a) => SaneWith(env, s, CStr(GetEx(j, "do").value.s), GetEx(j, "with").value);
  }

  lemma SaneWith(env: Env, s: Store, name: string, w: Json)
    ensures ParseWith(env, s, name, w).Ok? ==> Sane(ParseWith(env, s, name, w).value)
  {
    if name in OTHER_ACTIONS && ConstrArg(w, name).Ok? {
      SaneOther(env, s, name, ConstrArg(w, name).value, w);
    }
  }

  lemma SaneOther(env: Env, s: Store, name: string, c: Constr, w: Json)
    ensures OtherAction(env, s, name, c, w).Ok? ==> Sane(OtherAction(env, s, name, c, w).value)
  {
  }

  /** A number names a user exactly when it is positive; large ones saturate. */
  lemma NumericUserKeys(env: Env, s: Store, n: int)
    ensures UserId(env, s, JInt(n)) == ERROR <==> n <= 0
    ensures 1 <= n ==> 1 <= UserId(env, s, JInt(n)) <= n && UserId(env, s, JInt(n)) <= INT32_MAX
    ensures 1 <= n <= INT32_MAX ==> UserId(env, s, JInt(n)) == n
  {
  }

  lemma NamedRowSelected(s: Store, names: map<int, string>, name: string, id: int)
    requires names.Keys <= Ids(s.users) && id in names && names[id] == name
    ensures exists u :: u in Filter(s.users, Named(names, name)) && u.id == id
  {
  }

  /** The rows a lookup by name selects: none, the only one, or several distinct ones. */
  lemma SelectedRows(s: Store, names: map<int, string>, name: string)
    requires Valid(s) && names.Keys <= Ids(s.users)
    ensures var rows := Filter(s.users, Named(names, name));
            && (forall k :: k in names && names[k] == name ==> rows != [] && (|rows| == 1 ==> k == rows[0].id))
            && (rows != [] ==> rows[0].id in names && names[rows[0].id] == name)
            && (|rows| >= 2 ==> rows[1].id in names && names[rows[1].id] == name && rows[0].id != rows[1].id)
  {
    var rows := Filter(s.users, Named(names, name));
    forall k | k in names && names[k] == name
      ensures rows != [] && (|rows| == 1 ==> k == rows[0].id)
    {
      NamedRowSelected(s, names, name, k);
    }
    if rows != [] {
      assert rows[0] in rows;
    }
    if |rows| >= 2 {
      FilterUsersDistinct(s.users, Named(names, name));
      assert rows[1] in rows;
    }
  }

  /** The user a name stands for: the member of that name, else the pro that alone
      bears it. */
  ghost predicate Bears(s: Store, id: int, name: string) {
    || (id in s.members && s.members[id] == name)
    || (&& (forall m :: m in s.members ==> s.members[m] != name)
        && id in s.pros && s.pros[id] == name
        && forall p :: p in s.pros && s.pros[p] == name ==> p == id)
  }

  /** A lookup by name fails as a statement: the pros are asked only when no member has it. */
  ghost predicate LookupFails(env: Env, s: Store, name: string) {
    QName in env.fails || (QBusiness in env.fails && forall m :: m in s.members ==> s.members[m] != name)
  }

  /** Lookup by name gives the id of the user the name stands for, unless that id is one
      of the two that report a failure. */
  lemma NameLookup(env: Env, s: Store, name: string, id: int)
    requires Valid(s)
    ensures id !in {HANDLED, ERROR} ==>
              (IdByName(env, s, name) == id <==> !LookupFails(env, s, name) && Bears(s, id, name))
    ensures IdByName(env, s, name) == HANDLED <==> LookupFails(env, s, name) || Bears(s, HANDLED, name)
  {
    SelectedRows(s, s.members, name);
    SelectedRows(s, s.pros, name);
  }
}
