/** The request language: which requests spell which action, and what a request that
    spells none is answered. */
module Requests {
  import opened Base
  import opened Uuid
  import opened Constr
  import opened Json
  import opened Tables
  import opened Actions
  import opened Effects
  import opened Answers
  import opened Parse

  // ---- What an argument may be ----

  /** The user a key stands for: a positive number, cut to 32 bits, or a name of at most
      319 bytes and without an at sign. */
  ghost predicate StandsFor(env: Env, s: Store, key: Json, id: int) {
    && id !in {HANDLED, ERROR}
    && match key
       case JInt(n) => n >= 1 && id == Min(n, INT32_MAX)
       case JString(t) =>
         |t| <= 319 && '@' !in CStr(t) && !LookupFails(env, s, CStr(t)) && Bears(s, id, CStr(t))
       case _ => false
  }

  /** A number is read as the nearest one that fits 32 bits. */
  predicate Nearest32(n: int, k: int) {
    INT32_MIN <= n <= INT32_MAX && (n < k ==> n == INT32_MAX) && (n > k ==> n == INT32_MIN)
  }

  predicate SpellsConstr(w: Json, c: Constr) {
    match GetEx(w, "constr")
    case Some(JString(t)) => ParseConstr(t) == Some(c)
    case _ => false
  }

  ghost predicate SpellsUser(env: Env, s: Store, w: Json, key: string, id: int) {
    GetEx(w, key).Some? && StandsFor(env, s, GetEx(w, key).value, id)
  }

  predicate SpellsText(w: Json, key: string, text: Text) {
    match GetEx(w, key)
    case Some(JString(t)) => text.len == |t| && text.val == CStr(t)
    case _ => false
  }

  predicate SpellsInt(w: Json, key: string, n: int) {
    match GetEx(w, key)
    case Some(JInt(k)) => Nearest32(n, k)
    case _ => false
  }

  /** A page is optional and counts from 1. */
  predicate SpellsPage(w: Json, page: int) {
    page >= 1 && if GetEx(w, "page").None? then page == 1 else SpellsInt(w, "page", page)
  }

  // ---- Which requests spell an action ----

  /** `w` holds the arguments of the action `a`, called `name`, the connection string apart. */
  ghost predicate SpellsArgs(env: Env, s: Store, name: string, w: Json, a: Action) {
    match a
    case Failed(_) => false
    case Whois(_, id) => name == "whois" && SpellsUser(env, s, w, "user", id)
    case Send(_, dest, content) =>
      name == "send" && SpellsText(w, "content", content) && SpellsUser(env, s, w, "dest", dest)
    case Motd(_) => name == "motd"
    case Inbox(_, page) => name == "inbox" && SpellsPage(w, page)
    case Outbox(_, page) => name == "outbox" && SpellsPage(w, page)
    case Edit(_, id, content) =>
      name == "edit" && SpellsInt(w, "msg_id", id) && SpellsText(w, "new_content", content)
    case Rm(_, id) => name == "rm" && SpellsInt(w, "msg_id", id)
    case Block(_, id) => name == "block" && SpellsUser(env, s, w, "user", id)
    case Unblock(_, id) => name == "unblock" && SpellsUser(env, s, w, "user", id)
    case Ban(_, id) => name == "ban" && SpellsUser(env, s, w, "user", id)
    case Unban(_, id) => name == "unban" && SpellsUser(env, s, w, "user", id)
  }

  ghost predicate SpellsWith(env: Env, s: Store, name: string, w: Json, a: Action) {
    !a.Failed? && SpellsConstr(w, a.constr) && SpellsArgs(env, s, name, w, a)
  }

  ghost predicate Spells(env: Env, s: Store, j: Json, a: Action) {
    var what, w := GetEx(j, "do"), GetEx(j, "with");
    what.Some? && what.value.JString? && w.Some? && SpellsWith(env, s, CStr(what.value.s), w.value, a)
  }

  /** What a user key is read as: the user it stands for, or a failed lookup (e-mail
      addresses always fail), or else nobody. */
  lemma UserKeys(env: Env, s: Store, key: Json, id: int)
    requires Valid(s)
    ensures id !in {HANDLED, ERROR} ==> (UserId(env, s, key) == id <==> StandsFor(env, s, key, id))
    ensures UserId(env, s, key) == HANDLED <==>
              && key.JString? && |key.s| <= 319
              && ('@' in CStr(key.s) || LookupFails(env, s, CStr(key.s)) || Bears(s, HANDLED, CStr(key.s)))
  {
    if key.JString? {
      NameLookup(env, s, CStr(key.s), id);
    }
  }

  lemma ArgIff(env: Env, s: Store, w: Json, action: string, key: string, id: int, n: int, text: Text, c: Constr)
    requires Valid(s)
    ensures UserArg(env, s, w, action, key) == Ok(id) <==> SpellsUser(env, s, w, key, id)
    ensures IntArg(w, action, key) == Ok(n) <==> SpellsInt(w, key, n)
    ensures TextArg(w, action, key) == Ok(text) <==> SpellsText(w, key, text)
    ensures PageArg(w, action) == Ok(n) <==> SpellsPage(w, n)
    ensures ConstrArg(w, action) == Ok(c) <==> SpellsConstr(w, c)
  {
    if GetEx(w, key).Some? {
      UserKeys(env, s, GetEx(w, key).value, id);
    }
  }

  lemma UserActionName(env: Env, s: Store, name: string, w: Json)
    requires name in USER_ACTIONS
    ensures var r, c, user := ParseWith(env, s, name, w), ConstrArg(w, name), UserArg(env, s, w, name, "user");
            && (r.Ok? <==> c.Ok? && user.Ok?)
            && (r.Ok? ==> && TakesUser(r.value) && Name(r.value) == name
                          && r.value.constr == c.value && r.value.userId == user.value)
  {
  }

  lemma SameUserAction(a: Action, b: Action)
    requires TakesUser(a) && TakesUser(b) && Name(a) == Name(b) && a.constr == b.constr && a.userId == b.userId
    ensures a == b
  {
  }

  lemma UserArgsSpelled(env: Env, s: Store, w: Json, a: Action)
    requires TakesUser(a)
    ensures SpellsArgs(env, s, Name(a), w, a) <==> SpellsUser(env, s, w, "user", a.userId)
  {
  }

  lemma UserActionIff(env: Env, s: Store, w: Json, a: Action)
    requires Valid(s) && TakesUser(a)
    ensures ParseWith(env, s, Name(a), w) == Ok(a) <==> SpellsWith(env, s, Name(a), w, a)
  {
    var name := Name(a);
    NamesAreKnown(a);
    UserActionName(env, s, name, w);
    UserArgsSpelled(env, s, w, a);
    ArgIff(env, s, w, name, "user", a.userId, 0, Text(0, ""), a.constr);
    var r := ParseWith(env, s, name, w);
    if r.Ok? && r.value.constr == a.constr && r.value.userId == a.userId {
      SameUserAction(r.value, a);
    }
  }

  /** An action is called what its request calls it. */
  lemma OtherActionName(env: Env, s: Store, name: string, c: Constr, w: Json)
    requires name in OTHER_ACTIONS
    ensures var r := OtherAction(env, s, name, c, w);
            r.Ok? ==> !r.value.Failed? && Name(r.value) == name && r.value.constr == c
  {
  }

  lemma NameSpelled(env: Env, s: Store, name: string, w: Json, a: Action)
    ensures SpellsArgs(env, s, name, w, a) ==> name == Name(a)
  {
  }

  lemma TextActionIff(env: Env, s: Store, w: Json, a: Action)
    requires Valid(s) && (a.Send? || a.Edit?)
    ensures OtherAction(env, s, Name(a), a.constr, w) == Ok(a) <==> SpellsArgs(env, s, Name(a), w, a)
  {
    if a.Send? {
      ArgIff(env, s, w, "send", "content", 1, 0, a.content, a.constr);
      ArgIff(env, s, w, "send", "dest", a.dest, 0, a.content, a.constr);
    } else {
      ArgIff(env, s, w, "edit", "msg_id", 1, a.msgId, a.content, a.constr);
      ArgIff(env, s, w, "edit", "new_content", 1, 0, a.content, a.constr);
    }
  }

  lemma NumberActionIff(env: Env, s: Store, w: Json, a: Action)
    requires Valid(s) && (a.Inbox? || a.Outbox? || a.Rm? || a.Motd?)
    ensures OtherAction(env, s, Name(a), a.constr, w) == Ok(a) <==> SpellsArgs(env, s, Name(a), w, a)
  {
    if a.Rm? {
      ArgIff(env, s, w, "rm", "msg_id", 1, a.msgId, Text(0, ""), a.constr);
    } else if !a.Motd? {
      ArgIff(env, s, w, Name(a), "page", 1, a.page, Text(0, ""), a.constr);
    }
  }

  lemma OtherActionIff(env: Env, s: Store, name: string, w: Json, a: Action)
    requires Valid(s) && name in OTHER_ACTIONS && !a.Failed?
    ensures OtherAction(env, s, name, a.constr, w) == Ok(a) <==> SpellsArgs(env, s, name, w, a)
  {
    OtherActionName(env, s, name, a.constr, w);
    NameSpelled(env, s, name, w, a);
    NamesAreKnown(a);
    if name == Name(a) {
      if a.Send? || a.Edit? {
        TextActionIff(env, s, w, a);
      } else {
        NumberActionIff(env, s, w, a);
      }
    }
  }

  /** A request is parsed as an action exactly when it spells it. */
  lemma ParseIff(env: Env, s: Store, j: Json, a: Action)
    requires Valid(s) && !a.Failed?
    ensures ParseAction(env, s, j) == a <==> Spells(env, s, j, a)
  {
    var what, w := GetEx(j, "do"), GetEx(j, "with");
    if what.Some? && what.value.JString? && w.Some? {
      WithIff(env, s, CStr(what.value.s), w.value, a);
    }
  }

  lemma OtherWithIff(env: Env, s: Store, name: string, w: Json, a: Action)
    requires Valid(s) && name in OTHER_ACTIONS && name !in USER_ACTIONS && !a.Failed?
    ensures ParseWith(env, s, name, w) == Ok(a) <==> SpellsWith(env, s, name, w, a)
  {
    ArgIff(env, s, w, name, "constr", 1, 0, Text(0, ""), a.constr);
    OtherActionIff(env, s, name, w, a);
    var c := ConstrArg(w, name);
    if c.Ok? {
      OtherActionName(env, s, name, c.value, w);
    }
  }

  lemma WithIff(env: Env, s: Store, name: string, w: Json, a: Action)
    requires Valid(s) && !a.Failed?
    ensures ParseWith(env, s, name, w) == Ok(a) <==> SpellsWith(env, s, name, w, a)
  {
    NameSpelled(env, s, name, w, a);
    NamesAreKnown(a);
    if name in USER_ACTIONS {
      UserActionName(env, s, name, w);
      if name == Name(a) {
        UserActionIff(env, s, w, a);
      }
    } else if name in OTHER_ACTIONS {
      OtherWithIff(env, s, name, w, a);
    }
  }

  // ---- What is wrong with a request ----

  predicate HasConstr(w: Json) {
    GetEx(w, "constr").Some? && GetEx(w, "constr").value.JString? && ParseConstr(GetEx(w, "constr").value.s).Some?
  }

  /** The error for a user key that is absent, stands for nobody or cannot be looked up. */
  ghost predicate UserError(env: Env, s: Store, location: string, key: Option<Json>, e: Error) {
    match key
    case None => e == MissingKey(location)
    case Some(k) =>
      || (UserId(env, s, k) == ERROR && e == Invalid(location, k, "invalid user key"))
      || (UserId(env, s, k) == HANDLED && e == Other(500))
  }

  /** After the connection string, a whois, block, unblock, ban or unban can only fail by
      its user. */
  lemma UserActionErrors(env: Env, s: Store, name: string, w: Json, e: Error)
    requires name in USER_ACTIONS && HasConstr(w)
    ensures ParseWith(env, s, name, w) == Err(e) <==> UserError(env, s, name + ".with.user", GetEx(w, "user"), e)
  {
    assert Location(name, "user") == name + ".with.user";
  }

  /** The error for a text that is absent or not a string. */
  predicate TextError(location: string, j: Option<Json>, e: Error) {
    if j.None? then e == MissingKey(location) else !j.value.JString? && e == WrongType(location, j.value, TString)
  }

  predicate IntError(location: string, j: Option<Json>, e: Error) {
    if j.None? then e == MissingKey(location) else !j.value.JInt? && e == WrongType(location, j.value, TInt)
  }

  /** A send fails by its content first, then by its recipient. */
  lemma SendErrors(env: Env, s: Store, w: Json, e: Error)
    requires HasConstr(w)
    ensures ParseWith(env, s, "send", w) == Err(e) <==>
            || TextError("send.with.content", GetEx(w, "content"), e)
            || (&& GetEx(w, "content").Some? && GetEx(w, "content").value.JString?
                && UserError(env, s, "send.with.dest", GetEx(w, "dest"), e))
  {
    assert Location("send", "content") == "send.with.content" && Location("send", "dest") == "send.with.dest";
  }

  /** An rm fails by its message id. */
  lemma RmErrors(env: Env, s: Store, w: Json, e: Error)
    requires HasConstr(w)
    ensures ParseWith(env, s, "rm", w) == Err(e) <==> IntError("rm.with.msg_id", GetEx(w, "msg_id"), e)
  {
    assert Location("rm", "msg_id") == "rm.with.msg_id";
  }

  /** An edit fails by its message id first, then by its content. */
  lemma EditErrors(env: Env, s: Store, w: Json, e: Error)
    requires HasConstr(w)
    ensures ParseWith(env, s, "edit", w) == Err(e) <==>
            || IntError("edit.with.msg_id", GetEx(w, "msg_id"), e)
            || (&& GetEx(w, "msg_id").Some? && GetEx(w, "msg_id").value.JInt?
                && TextError("edit.with.new_content", GetEx(w, "new_content"), e))
  {
    assert Location("edit", "msg_id") == "edit.with.msg_id";
    assert Location("edit", "new_content") == "edit.with.new_content";
  }

  /** The error for a page that is not a number or is below 1. */
  predicate PageError(location: string, page: Option<Json>, e: Error) {
    && page.Some?
    && if page.value.JInt? then page.value.n < 1 && e == Invalid(location, page.value, "invalid page number")
       else e == WrongType(location, page.value, TInt)
  }

  /** An inbox or outbox can only fail by its page. */
  lemma PageErrors(env: Env, s: Store, name: string, w: Json, e: Error)
    requires HasConstr(w) && name in {"inbox", "outbox"}
    ensures ParseWith(env, s, name, w) == Err(e) <==> PageError(name + ".with.page", GetEx(w, "page"), e)
  {
    assert Location(name, "page") == name + ".with.page";
  }

  /** The error for a connection string that is absent, not a string or without a UUID in front. */
  predicate ConstrError(location: string, j: Option<Json>, e: Error) {
    if j.None? then e == MissingKey(location)
    else if !j.value.JString? then e == WrongType(location, j.value, TString)
    else
      && (|j.value.s| < 36 || !Grammar(j.value.s[..36]))
      && e == Invalid(location, j.value, "invalid API key")
  }

  /** What is wrong with the arguments of an action: the first argument that is, in the
      order connection string, then message id or content, then recipient or new content. */
  ghost predicate Misspells(env: Env, s: Store, name: string, w: Json, e: Error) {
    || ConstrError(name + ".with.constr", GetEx(w, "constr"), e)
    || (&& HasConstr(w)
        && if name in USER_ACTIONS then UserError(env, s, name + ".with.user", GetEx(w, "user"), e)
           else if name == "send" then
             || TextError("send.with.content", GetEx(w, "content"), e)
             || (&& GetEx(w, "content").Some? && GetEx(w, "content").value.JString?
                 && UserError(env, s, "send.with.dest", GetEx(w, "dest"), e))
           else if name == "edit" then
             || IntError("edit.with.msg_id", GetEx(w, "msg_id"), e)
             || (&& GetEx(w, "msg_id").Some? && GetEx(w, "msg_id").value.JInt?
                 && TextError("edit.with.new_content", GetEx(w, "new_content"), e))
           else if name == "rm" then IntError("rm.with.msg_id", GetEx(w, "msg_id"), e)
           else if name == "motd" then false
           else PageError(name + ".with.page", GetEx(w, "page"), e))
  }

  lemma MisspellsIff(env: Env, s: Store, name: string, w: Json, e: Error)
    requires name in USER_ACTIONS + OTHER_ACTIONS
    ensures ParseWith(env, s, name, w) == Err(e) <==> Misspells(env, s, name, w, e)
  {
    assert Location(name, "constr") == name + ".with.constr";
    if HasConstr(w) {
      if name in USER_ACTIONS {
        UserActionErrors(env, s, name, w, e);
      } else if name == "send" {
        SendErrors(env, s, w, e);
      } else if name == "edit" {
        EditErrors(env, s, w, e);
      } else if name == "rm" {
        RmErrors(env, s, w, e);
      } else if name in {"inbox", "outbox"} {
        PageErrors(env, s, name, w, e);
      }
    }
  }

  lemma ParsedIsNoError(env: Env, s: Store, name: string, w: Json)
    ensures ParseWith(env, s, name, w).Ok? ==> !ParseWith(env, s, name, w).value.Failed?
  {
    if name in USER_ACTIONS {
      UserActionName(env, s, name, w);
    } else if name in OTHER_ACTIONS && ConstrArg(w, name).Ok? {
      OtherActionName(env, s, name, ConstrArg(w, name).value, w);
    }
  }

  /** What is wrong with a request, as far as its form goes; then, its arguments. */
  ghost predicate Malformed(env: Env, s: Store, j: Json, e: Error) {
    var what, w := GetEx(j, "do"), GetEx(j, "with");
    if what.None? then e == MissingKey("action.do")
    else if !what.value.JString? then e == WrongType("action", what.value, TString)
    else if w.None? then e == MissingKey("action.with")
    else if CStr(what.value.s) !in USER_ACTIONS + OTHER_ACTIONS then e == Other(500)
    else Misspells(env, s, CStr(what.value.s), w.value, e)
  }

  /** A request that spells no action is answered with an error, and with this one. */
  lemma ErrorIff(env: Env, s: Store, j: Json, e: Error)
    ensures ParseAction(env, s, j) == Failed(e) <==> Malformed(env, s, j, e)
  {
    var what, w := GetEx(j, "do"), GetEx(j, "with");
    if what.Some? && what.value.JString? && w.Some? {
      var name := CStr(what.value.s);
      ParsedIsNoError(env, s, name, w.value);
      assert ParseAction(env, s, j) == Failed(e) <==> ParseWith(env, s, name, w.value) == Err(e);
      if name in USER_ACTIONS + OTHER_ACTIONS {
        MisspellsIff(env, s, name, w.value, e);
      }
    }
  }

  // ---- Whois by name, end to end ----

  /** The request that asks who bears a name. */
  function WhoisRequest(c: Constr, name: string): Json {
    JObject([Field("do", JString("whois")),
             Field("with", JObject([Field("constr", JString(PrintConstr(c))), Field("user", JString(name))]))])
  }

  lemma WhoisRequestSpells(env: Env, s: Store, c: Constr, name: string, id: int)
    requires c.password.Some? ==> '\0' !in c.password.value
    requires '\0' !in name && StandsFor(env, s, JString(name), id)
    ensures Spells(env, s, WhoisRequest(c, name), Whois(c, id))
  {
    var constr, user := Field("constr", JString(PrintConstr(c))), Field("user", JString(name));
    SecondFieldFound(Field("do", JString("whois")), Field("with", JObject([constr, user])));
    SecondFieldFound(constr, user);
    PrintParse(c);
    CStrWhole(name);
    CStrWhole("whois");
  }

  /** A verified user who asks for a name of ordinary length is told the member of that
      name, else the only pro that bears it. */
  lemma WhoisFindsName(cfg: Cfg, env: Env, s: Store, c: Constr, name: string, id: int)
    requires Valid(s) && env.fails == {} && Verify(cfg, env, s, c).Known?
    requires c.password.Some? ==> '\0' !in c.password.value
    requires '\0' !in name && '@' !in name && |name| <= 319
    requires id !in {HANDLED, ERROR} && Bears(s, id, name)
    ensures Evaluate(cfg, env, s, ParseAction(env, s, WhoisRequest(c, name)))
            == (s, User(id, if id in s.members then Member else Pro, name))
  {
    CStrWhole(name);
    WhoisRequestSpells(env, s, c, name, id);
    ParseIff(env, s, WhoisRequest(c, name), Whois(c, id));
    WhoisAnswers(cfg, env, s, c, id);
  }
}
