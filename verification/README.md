# The Tchatator413 server, modelled and verified in Dafny

Tchatator413 is a small messaging server: members and professionals ("pros") exchange
messages through JSON requests, a PostgreSQL schema stores them, and a rate limiter
("turnstile") stands in front. This project models

* the **message store** (`Tables`, `Inbox`): users with one subtype each, the `_msg` log
  with serial ids, soft delete through the `msg` view, the ordered inbox and its pages,
  cascades;
* the **actions** over it (`Actions`, `Effects`, `Answers`, `Messaging`, `Runs`):
  authentication, the send rules, inbox paging, removal, every answer by its exact condition,
  and what holds over every run;
* **requests** (`Json`, `Parse`, `Requests`, `Constr`, `Uuid`, `Batch`): parsing of actions,
  connection strings, the UUID codec and the interpretation of a list of actions;
* the **turnstile** (`Turnstile`) and the **server loop** (`Server`) that joins it to the rest;
* the state changed in place (`Database`, `Turnstile.Turnstile`), each method proved equal
  to the function the theorems are about;
* the **buffers** around it: `Slurp`, `Memlst`, `WriteLoop`, and the JSON comparison of the
  repository's tests (`JsonEq`).

The main results are end-to-end statements: `Server.ServerSafety` and
`Server.ServerRateLimit` over any sequence of connections and user changes,
`Runs.RulesThroughoutIff`, `Runs.RemovedAtMostOnce` and `Runs.InboxReadsTheLogBackwards` over any
run of the store, `Messaging.RulesKeptIff` for one action under either reading of the code,
`Turnstile.SlidingWindow` and `Turnstile.Absorption` over any run of requests,
`JsonEq.EqFmtDecides` for any two documents, `Requests.ParseIff` and `Requests.ErrorIff` for any
request, `Effects.SendRefusals`, `Effects.StoredIff` and `Answers.RmAnswers` for the outcome of
any send and removal, and the round trips of UUIDs, connection strings
and actions.

`dafny verify dfyconfig.toml` checks everything.

## Conventions

* A `char` of a `string` is one byte; `CStr` is what C sees of a string, up to the first NUL.
* Database timestamps are integers counting microseconds since 1970 (after 2000, where the
  unsigned division on the wire is exact). The clock of the turnstile is a natural number of
  seconds.
* `_user` rows are kept in the order a scan meets them. Api keys are not unique, and a
  lookup by key takes the first row found.
* bcrypt is a function of the configuration; a block is a flag of each action's surroundings
  (`Env.blocked`), so every theorem holds for any block state; `Env.fails` says which queries
  of the action fail for reasons outside the store, an insert before or after it draws its id.
* `msg_ordered` is taken to keep its order when the inbox query filters it and cuts a page out
  of it, as PostgreSQL does in practice.
* `Reverse`, `Filter` and the like are in `Base`.

## Where the text of the program and its intent differ

* **Broken send rules** (`src/server/action.c:33-38`). The macro `fail_invariant` sets the error
  and does not return, so the message is sent all the same; its id is then written over the
  tag of the error in the response union. The protocol document
  (`doc/Protocole Tchatator413.md:216-222`) has a broken rule end the action.
  `src/server/db.c:272` likewise counts the rows of a `count(*)` result, always one, where
  `lib/own/tchatator413/db.h:124-131` promises the number of live messages. `Actions.Reading`
  names the two readings; every theorem holds for both unless it says otherwise.
  `RulesThroughoutIff` says for both when the messaging rules hold along a run,
  `RulesKeptIff` when one action keeps them; `AsWrittenStoresForbidden` is a forbidden message
  the text as written stores, and `ReachableRules` gives the rules over all runs as documented.
* **A count query that fails** returns -1, which the guard takes for a positive count:
  `FailedCountOpensGate`. `ReachableRules` therefore asks that count queries work.
* **The turnstile's map** is passed by value (`src/server/tchatator413-server.c:82`), so the
  caller's pointer stays null and no request is ever refused: `ByValueNeverRefuses`, with
  `ByValueBreaksWindow` for an input. All other
  results are about the map the comment at lines 76-81 describes, with the per-entry step
  exactly as written.
* **The announced time** of a refusal is described as the time of the next allowed request. It
  is not: `AnnouncedTimeFails` is a counterexample and `AnnouncedTimeSufficesIff` the exact
  condition. `Recovery` says what silence does suffice.
* **Page offsets** are products of C ints. Overflow is undefined in C; the model wraps it to 32
  bits as two's complement does. `PageCorrectIff` says when a page is right; `FarPageWraps` and
  `FarPageShowsFirst` show one that is not.
* **Administrators** get role 0 from the `user` view (`src/server/sql/views.sql:35`), which
  `validate_db_role` rejects, so root (id 0) is the only administrator that can act;
  messages to administrators answer 500.
* **Users without a password** cannot log in: a null hash reaches `check_password` as an empty
  string (`KnownUserExists`), although the protocol document makes passwords optional.
* **Inserting through a view** needs an explicit user id, since view columns have no default.
* **A null element** in a request list fails an assertion; `Outcome.aborted` records it.

## Model

| member | source | states |
|---|---|---|
| Turnstile.Turnstile.RateLimit | src/server/tchatator413-server.c:82-111 | the in-place update touches one entry and answers as the specification functions say |
| Turnstile.CountersRefineHistory | src/server/tchatator413-server.c:86-106 | after any run each counter is the length of the longest recent streak of the address's requests, refused ones included, with gaps below 60 s (3600 s) |
| Turnstile.StreakUnique | src/server/tchatator413-server.c:102-106 | the longest streak is unique, so the history determines the counters |
| Turnstile.MinuteWithinHour | src/server/tchatator413-server.c:102-106 | the minute counter never exceeds the hour counter, nor that the number of requests |
| Turnstile.PassesIffStreaksBelowLimits | src/server/tchatator413-server.c:86-110 | a first request passes; a later one passes iff both streaks are below their limits, and is otherwise told the time of the request before it plus 60 s, or 3600 s when only the hour is full |
| Turnstile.CounterCoversWindow | src/server/tchatator413-server.c:97-106 | while the last request is in a window, the counter is at least the number of requests in it |
| Turnstile.SlidingWindow | src/server/tchatator413-server.c:82-111 | in every [s, s+60) and [s, s+3600) an address gets at most max(1, limit - 1) requests through, whatever others do |
| Turnstile.Absorption | src/server/tchatator413-server.c:97-110 | once a counter is at its limit, an address whose gaps stay short is refused at every later knock |
| Turnstile.Recovery | src/server/tchatator413-server.c:97-110 | for all limits: after an hour of silence a request passes iff both limits are at least 2, after a minute iff the hour counter has room too; a refusal under limits of at least 2 announces a later time, at most 60 s or 3600 s away |
| Turnstile.OtherEntriesUntouched | src/server/tchatator413-server.c:86-106 | any number of other addresses' requests leaves an address's entry and history as they were |
| Turnstile.AnnouncedTimeSufficesIff | src/server/tchatator413-server.c:76-110 | for all limits, exactly when coming back at the announced time is accepted |
| Turnstile.AnnouncedTimeFails | src/server/tchatator413-server.c:76-110 | a run from the empty table: the twelfth of twelve requests a second apart is refused until 71, and refused again at 71 |
| Turnstile.ByValueNeverRefuses | src/server/tchatator413-server.c:82-95 | with the map passed by value nobody is refused: a window lets through whatever knocks in it |
| Turnstile.ByValueBreaksWindow | src/server/tchatator413-server.c:82-95 | a burst of twelve within a minute passes whole by value, and not with the persistent map |
| Tables.AddUserKeepsValid | src/server/sql/triggers/member.sql:7-18 | inserts through the views keep every declared constraint |
| Tables.AddUserRoles | src/server/sql/triggers/pro.sql:7-18 | an insert is accepted iff the id is given and free and a member's name is; it then stores key, hash, role and name; a refused one changes nothing, no other user and no message moves |
| Tables.DeleteUserKeepsValid | src/server/sql/tables.sql:11-50 | deletes with cascade keep every declared constraint, references included |
| Tables.DeleteUserRoles | src/server/sql/triggers/member.sql:42-50 | a delete takes place iff the view it goes through shows the user; it then removes the user and exactly the messages from or to it, else nothing changes |
| Tables.OneSubtypePerUser | src/server/sql/views.sql:28-45 | in a valid store the user view gives exactly the users a role, naming the one subtype table that holds them |
| Tables.CountIsCardinality | lib/own/tchatator413/db.h:124-131 | the documented count is the number of live rows from one user to the other, so it is zero iff there is none |
| Tables.InsertMsgKeepsValid | src/server/sql/functions.sql:8-16 | inserting a message keeps keys, references, id order and checks, or inserts nothing |
| Tables.RmMsgKeepsValid | src/server/sql/triggers/msg.sql:40-51 | the soft delete keeps them too |
| Inbox.OrderedMultiset | src/server/sql/views.sql:18-26 | the ordered view holds exactly the rows it sorts |
| Inbox.OrderedSorted | src/server/sql/views.sql:18-26 | it is strictly sorted by date then id, latest first |
| Inbox.SortedUnique | src/server/sql/views.sql:18-26 | these two properties determine it |
| Inbox.InboxHoldsLiveMessages | src/server/db.c:311-313 | the rows of an inbox are the live messages to that recipient, each once, strictly sorted |
| Inbox.InboxIsReversedLog | src/server/db.c:311-313 | under a forward clock the inbox is the filtered log read backwards |
| Inbox.PagesPartition | src/server/action.c:121 | enough pages, one after the other, are all rows in order |
| Inbox.RmTakesOutOne | src/server/sql/triggers/msg.sql:40-51 | a removal takes that message out of every inbox and leaves the others and their order |
| Inbox.RmKeepsTheRow | src/server/sql/triggers/msg.sql:45-49 | the removed row stays in the log, marked; no other row changes |
| Effects.StoredSend | src/server/db.c:279-299 | a response that reports a stored message means one fresh row with the sender's identity, and nothing else |
| Effects.StoredIff | src/server/action.c:69-98 | a send is stored iff, before the call: verified sender, existing member or pro, content within the limit, the rules read on the rows (as documented), no block, no failing query, an id left; lawful ones are reported as sent, others as written over the last broken rule |
| Effects.SendRefusals | src/server/action.c:76-97 | under either reading, the exact condition of each refusal of a send, read on the tables: 404, 413, the three rules, 403, 500 |
| Effects.ProMayReply | src/server/action.c:90-101 | as documented, a pro's message to a member with a live message to it is stored and reported |
| Effects.EvaluateEffect | src/server/action.c:46-204 | any action keeps the store valid and the users unchanged; log and live counts move by what the response reports |
| Effects.OtherwiseUntouched | src/server/action.c:46-204 | without a reported send or removal the tables do not change, and only a verified user's send can use up an id; parse failures are echoed, failed credentials answer 401 or 500 |
| Effects.RefusalLeavesStore | src/server/sql/functions.sql:8-43 | under either reading, an action that neither stores nor removes leaves the store equal, except that a send uses up an id exactly when the database had drawn one for it |
| Effects.KnownUserExists | src/server/db.c:92-146 | a verified identity is root or a member or pro row of that role; without a password it is root |
| Effects.RootLogin | src/server/db.c:115-119 | root's key and an accepted password give the administrator 0 in any store, whichever queries fail; in a valid store nobody else is ever an administrator |
| Effects.UnknownLogin | src/server/db.c:125-133 | a failing query answers 500 to any action, a key nobody bears 401 |
| Effects.VerifiedIff | src/server/db.c:134-142 | otherwise the first row with the key decides: a member or pro with an accepted password is let in under its role, one without is answered 401, an administrator row 500 |
| Effects.SendThenRead | src/server/db.c:339-364 | a stored message reads back with its sender (root included), recipient, content and zero ages, under a fresh id |
| Effects.SendKeepsOthers | src/server/db.c:339-364 | no other message reads differently |
| Effects.GetMsgShows | src/server/db.c:339-364 | every row of the log, deleted or not, reads back as itself, and no other id reads |
| Effects.RmThenRead | src/server/db.c:339-387 | a removed message reads back with its age, the others as before |
| Effects.SecondsDiffIsNearest | src/server/sql/functions.sql:71-73 | ages are the nearest whole seconds |
| Answers.WhoisAnswers | src/server/action.c:60-65 | to a verified caller of any role, the role and name of the user asked about, 404 for no user, 500 for an administrator |
| Answers.RmAnswers | src/server/action.c:154-158 | an rm succeeds iff the message is live and its age passes the checks and 32 bits, and then marks that row and nothing else; 404 iff no live row has that id; else 500; a failure changes nothing |
| Answers.InboxAnswers | src/server/db.c:301-337 | for any page number and size: 500 iff the query fails or the size or the wrapped offset is negative, else the rows from that offset on, each shown field by field |
| Answers.StubAnswers | src/server/action.c:104-200 | motd, outbox and edit answer any verified user; block, unblock, ban and unban answer 403 to members and to nobody else |
| Answers.DeleteKeepsLogins | src/server/db.c:121-142 | deleting a user changes nobody else's login |
| Answers.AddKeepsLogins | src/server/db.c:121-142 | a new user takes over nobody's login, even with a key in use |
| Answers.NewUserLogsIn | src/server/sql/triggers/member.sql:7-18 | a new member or pro with its own key logs in iff its hash accepts the password, and whois then shows its role and name |
| Messaging.RulesKeptIff | src/server/action.c:83-98 | under either reading, an action keeps the messaging rules iff it is not a send that meets the storing conditions and would break a rule, all read on the store before it |
| Messaging.DocumentedGuards | src/server/action.c:86-92 | as documented, with a working count, whatever is stored obeys the rules |
| Messaging.AsWrittenStoresForbidden | src/server/action.c:33-38 | as written, a member's message to a member is stored |
| Messaging.FailedCountOpensGate | src/server/db.c:268-276 | a failing count query lets an unsolicited message through |
| Messaging.AddUserKeepsRules | src/server/sql/triggers/member.sql:7-18 | new users do not break the rules |
| Messaging.DeleteUserKeepsRules | src/server/sql/tables.sql:43-48 | a cascade removes a reply together with its witness |
| Messaging.MarkKeepsRules | src/server/sql/triggers/msg.sql:45-49 | a soft delete keeps the witness row |
| Runs.ReachableValid | src/server/sql/tables.sql:5-50 | every store reached by inserts, deletes and actions keeps one subtype per user, the references and the checks |
| Runs.RulesThroughoutIff | src/server/action.c:83-98 | under either reading, the messaging rules hold in every store along a run iff no send of the run is stored against them |
| Runs.DocumentedNoBreach | src/server/action.c:86-92 | as documented, with working counts, no send of any run is |
| Runs.ReachableRules | src/server/action.c:83-98 | so every reachable store then obeys the rules, with an earlier witness in the log for each pro's message |
| Runs.ReplyIsSent | src/server/action.c:90-101 | a concrete reply of a pro to the member who wrote once is stored and reported |
| Runs.ReachableShort | src/server/action.c:84 | no stored message exceeds the configured number of bytes |
| Runs.Conservation | src/server/action.c:46-204 | over any sequence of actions the log grows by the reported sends and the live count by these minus the reported removals |
| Runs.RowsOnlyAge | src/server/sql/triggers/msg.sql:40-51 | over any sequence of actions every stored row keeps its place and contents; it can be marked deleted once and never changes after |
| Runs.RemovedAtMostOnce | src/server/db.c:366-387 | in any run each message is removed at most once |
| Runs.LaterRmNotFound | src/server/action.c:154-158 | after a removal, whatever happens since, the message is in no inbox and every later rm changes nothing and answers 404 |
| Runs.RmNotFound | src/server/db.c:381-385 | an rm of a message that is not live changes nothing |
| Runs.ReachableClock | src/server/sql/tables.sql:31 | under a forward clock the log is in order of sending |
| Runs.PagesReadAreSlices | src/server/db.c:301-337 | the inbox responses are the pages of the ordered rows |
| Runs.InboxReadsTheLogBackwards | src/server/action.c:121 | after any run under a forward clock, reading pages 1 to k gives exactly the user's live messages, each once, latest first |
| Runs.PageCorrectIff | src/server/action.c:121 | in any valid store, a page answers the slice it names iff its offset fits 32 bits or wraps past the end |
| Runs.FarPageWraps | src/server/action.c:121 | with pages of four, page 2^30 + 1 of a non-empty inbox shows the first page, and that is not its slice |
| Runs.FarPageShowsFirst | src/server/action.c:121 | a store of one message where this happens |
| Constr.PrintParse | src/server/action-json.c:99-120 | printing then extracting gives the pair back iff the password holds no NUL; absent and empty stay distinct |
| Constr.PrintInjective | src/server/action.c:213-216 | distinct pairs never share a connection string |
| Constr.ParsePrintParse | src/server/action-json.c:99-120 | every accepted string, trailing junk included, is equivalent to the canonical one |
| Constr.AcceptedIff | src/server/action-json.c:108-119 | acceptance depends on the first 36 bytes only; what follows matters iff it starts with the delimiter |
| Constr.ParsedParts | src/server/action-json.c:98-119 | what is read, byte by byte: the UUID of the first 36, a password iff C2 A4 follow, up to the first NUL |
| Uuid.Repr | src/server/uuid.c:30-43 | writes the canonical text over the first 36 characters and nothing else |
| Uuid.Parse | src/server/uuid.c:45-62 | accepts iff the first 36 characters match the grammar, and then yields the octets they denote |
| Uuid.ParseRepr | src/server/uuid.c:30-62 | parsing the text of a UUID gives it back |
| Uuid.ReprParse | src/server/uuid.c:30-62 | the text of a parsed UUID is the accepted text in lower case |
| Uuid.SameUuidIffSameLowercase | src/server/uuid.c:83-95 | accepted texts denote the same UUID iff they differ in letter case only |
| Uuid.HalfToRepr | src/server/uuid.c:78-81 | a lower-case digit that reads back as the value |
| Uuid.ReprOfHalf | src/server/uuid.c:83-91 | a digit read and written again is itself in lower case |
| Uuid.DigitsInOrder | src/server/uuid.c:78-91 | the sixteen digits in order |
| Uuid.DecodeReads | src/server/uuid.c:45-62 | octets are read from left to right at the positions of the layout, high digit first |
| Parse.RenderParse | src/server/action-json.c:32-262 | every action a request can spell is read back from its request |
| Parse.ParsedActionsAreSane | src/server/action-json.c:83-142 | what parsing guarantees of pages, ids and strings |
| Parse.NameLookup | src/server/db.c:191-222 | a name finds its member, else the pro that alone bears it; exactly when the lookup fails |
| Json.GetExIff | src/server/action-json.c:73-81 | a key has a value iff the document is an object with that very member |
| Requests.UserKeys | src/server/action-json.c:14-30 | a user key is a positive number, cut to 32 bits, or a name of at most 319 bytes without an at sign that some user bears; exactly when a lookup fails |
| Requests.ParseIff | src/server/action-json.c:155-261 | a request is parsed as an action iff it spells it, field by field, a missing page being page 1 |
| Requests.ErrorIff | src/server/action-json.c:37-143 | otherwise it gives the error of the first thing wrong with it, with location and reason |
| Requests.WhoisFindsName | src/server/action.c:60-66 | the whole whois request by name answers the member of that name, else the only pro that bears it |
| Batch.BatchConcat | src/server/tchatator413.c:53-63 | interpreting joined lists is interpreting one after the other |
| Batch.OneResponseEach | src/server/tchatator413.c:54-61 | one response per action, in order, each computed in the store left by the earlier ones |
| Batch.RequestForms | src/server/tchatator413.c:52-82 | the empty list gives the empty list, a bare action what its one-element list gives, anything else one type error located at "request" and no change |
| Batch.BatchIsRun | src/server/tchatator413.c:36-62 | a batch is a run of the actions it parses |
| Batch.BatchConservation | src/server/tchatator413.c:36-62 | over any batch, log and live counts move by what the responses report |
| Database.Db.InsertUser | src/server/sql/functions.sql:44-52 | appends the row iff the id is given and free |
| Database.Db.InsertThrough | src/server/sql/triggers/member.sql:7-18 | the insert triggers, rolled back as a whole when they fail |
| Database.Db.DeleteThrough | src/server/sql/triggers/member.sql:42-46 | the delete triggers with their cascades |
| Database.Db.SendMsg | src/server/sql/functions.sql:8-43 | the insert of a message, its failures and its use of the id sequence |
| Database.Db.RmMessage | src/server/db.c:366-387 | the soft delete and its failures |
| Database.Db.GetInbox | src/server/db.c:301-337 | the copied array is the exported page |
| Database.Db.EvaluateSend | src/server/action.c:69-101 | the branches of send in the source's order, for both readings |
| Database.Db.ActionEvaluate | src/server/action.c:22-204 | the whole action changes the store and answers as the specification says |
| Database.Db.InterpretList | src/server/tchatator413.c:53-63 | the loop over a list computes the batch |
| Database.Db.InterpretRequest | src/server/tchatator413.c:48-85 | the dispatch on the type of the request |
| Server.HandleConnection | src/server/tchatator413-server.c:175-191 | an admitted connection is interpreted, a refused one is told the announced time |
| Server.DownIff | src/server/tchatator413-server.c:175-191 | only an admitted list with a null in it brings the server down, and then no connection is served |
| Server.LifeIsRun | src/server/tchatator413-server.c:161-195 | the store of a server is the outcome of a run from the empty store |
| Server.ServerSafety | src/server/tchatator413-server.c:161-195 | over any life of the server: valid tables, short contents and, as documented, the messaging rules |
| Server.ServerRateLimit | src/server/tchatator413-server.c:175-191 | in any minute or hour an address gets at most max(1, limit - 1) requests interpreted; a refused connection leaves the store alone |
| JsonEq.JsonObjectEqFmt | test/server/tests.c:75-122 | the recursive comparison with its loops computes the specified relation |
| JsonEq.EqFmtDecides | test/server/tests.c:89-121 | without patterns it decides structural equality up to the order of members |
| JsonEq.EqualBySizeAndInclusion | test/server/tests.c:99-107 | equal sizes and one-way inclusion make objects equal |
| JsonEq.EqFmtEquivalence | test/server/tests.c:75-122 | it is reflexive, symmetric and transitive there |
| JsonEq.PatternsScan | test/server/tests.c:31-40 | which one-member objects are patterns, and with which format the actual document is scanned |
| JsonEq.PatternsBreakSymmetry | test/server/tests.c:31-40 | with patterns it is not symmetric |
| Slurp.GuardStopsAtSeven | src/common/util.c:66-70 | the guard refuses exactly the eighth growth, growth multiplies by 11, and nothing wraps |
| Slurp.Slurp | src/common/util.c:54-84 | the stream and a final NUL, or null iff the stream is too long or a needed allocation is refused |
| Slurp.Fill | src/common/util.c:64-79 | the reading loop writes within the buffer and stops only at the guard or a refused allocation |
| Memlst.MemoryList.Add | src/common/memlst.c:30-47 | one step of the list's history: appends a non-null pointer, ignores null |
| Memlst.MemoryList.Collect | src/common/memlst.c:49-60 | one step of the history: runs every destructor once, in order, and empties the list |
| Memlst.MemoryList.Destroy | src/common/memlst.c:22-28 | after any history, the destructor calls made are exactly the registrations, in order |
| Memlst.NothingLostNothingTwice | src/common/memlst.c:22-60 | calls made plus live entries are the registrations in order, live pointers are distinct, and destroying releases each exactly once |
| WriteLoop.WriteAll | src/server/tchatator413-server.c:34-48 | the loop ends; the chunks are exactly the payload and its NUL, or what precedes a failed write |

## Left out

- Blocking and banning: the four actions are stubs after their authorization; the block test of `send_msg` is an arbitrary flag.
- `motd`, `outbox` and `edit` do nothing after authentication in the source; their bodies are empty here too. `has_next_page` is never set.
- `response_to_json`: responses stay values; the case of a broken invariant is missing there.
- The update triggers call a function that is not defined, and the one of `msg` assigns a column twice; no operation reaches them.
- `_msg.user_id_recipient` may be null in the table; no statement of the program writes a null there, and the model has none.
- `db_transaction` and `db_use_test_data`, which only the tests call.
- Text encoding: the database's refusal of invalid UTF-8 is not modelled.
- Storage of the connection: the 8 KB read buffer, sockets, signals, logging, environment, configuration files and the interactive client.
- bcrypt, libpq, json-c and stb_ds internals; a password check that ends the process.
- Counter overflow after 2^31 requests of one address, and times before 1970.
- JSON numbers that are not a number; `sscanf` on a pattern is a parameter of the comparison.
- A `write` that returns 0 for ever, and `fslurp`'s read errors, which look like the end of the stream.
- `fslurp` and `memlst` under allocation failure of the list itself.
