/** The server loop: the turnstile in front of the interpreter
    (`tchatator413_run_socket` of src/server/tchatator413-server.c). */
module Server {
  import opened Base
  import opened Uuid
  import opened Json
  import opened Tables
  import opened Actions
  import opened Effects
  import opened Messaging
  import opened Runs
  import opened Batch
  import Database
  import T = Turnstile

  // ---- One connection ----

  /** `up` turns false when a failed assertion ends the process. */
  datatype World = World(store: Store, table: T.Table, up: bool)

  datatype Event =
    | Connect(request: T.Request, input: Json, envs: nat -> Env)
    | AddUserRow(id: Option<int>, key: Uuid, hash: Option<string>, kind: Kind)
    | DropUser(who: int, view: Kind)

  /** The answer of the turnstile to a connection; 0 lets it in. */
  function Admission(l: T.Limits, w: World, r: T.Request): int {
    T.Answer(l, T.Lookup(w.table, r.addr), r.time)
  }

  function Serve(cfg: Cfg, l: T.Limits, w: World, e: Event): World {
    match e
    case AddUserRow(id, key, hash, kind) => w.(store := AddUser(w.store, id, key, hash, kind).0)
    case DropUser(id, kind) => w.(store := DeleteUser(w.store, id, kind))
    case Connect(r, input, envs) =>
      if !w.up then w
      else
        var v := w.(table := w.table[r.addr := T.Bump(T.Lookup(w.table, r.addr), r.time)]);
        if Admission(l, w, r) != 0 then v
        else
          var out := Interpret(cfg, w.store, input, envs);
          v.(store := out.store, up := !out.aborted)
  }

  /** One turn of the accept loop: refused connections are told when to come back,
      admitted ones are interpreted. */
  method HandleConnection(cfg: Cfg, l: T.Limits, turnstile: T.Turnstile, db: Database.Db,
                          r: T.Request, input: Json, envs: nat -> Env)
    returns (reply: seq<Response>, aborted: bool)
    modifies turnstile, db`log, db`nextMsgId
    ensures World(db.Contents(), turnstile.entries, !aborted)
            == Serve(cfg, l, World(old(db.Contents()), old(turnstile.entries), true), Connect(r, input, envs))
    ensures var admission := Admission(l, World(old(db.Contents()), old(turnstile.entries), true), r);
            reply == if admission == 0 then Interpret(cfg, old(db.Contents()), input, envs).responses
                     else [ErrorResponse(RateLimit(admission))]
  {
    var next := turnstile.RateLimit(l, r.addr, r.time);
    if next == 0 {
      reply, aborted := db.InterpretRequest(cfg, input, envs);
    } else {
      reply, aborted := [ErrorResponse(RateLimit(next))], false;
    }
  }

  /** Only an admitted list with a null in it brings the server down, and a server that is
      down serves no connection. */
  lemma DownIff(cfg: Cfg, l: T.Limits, w: World, e: Event)
    ensures var hole := && e.Connect? && e.input.JArray? && Admission(l, w, e.request) == 0
                        && exists i :: 0 <= i < |e.input.items| && e.input.items[i].JNull?;
            Serve(cfg, l, w, e).up <==> w.up && !hole
    ensures e.Connect? && !w.up ==> Serve(cfg, l, w, e) == w
  {
    if e.Connect? {
      var calls := CallsOf(e.input, e.envs);
      if calls.Some? {
        OneResponseEach(cfg, w.store, calls.value);
      }
    }
  }

  // ---- The life of a server ----

  function Life(cfg: Cfg, l: T.Limits, events: seq<Event>): World {
    if events == [] then World(EMPTY, map[], true)
    else Serve(cfg, l, Life(cfg, l, events[..|events| - 1]), events[|events| - 1])
  }

  /** The operations the store undergoes. */
  function StoreOps(cfg: Cfg, l: T.Limits, w: World, e: Event): seq<Op> {
    match e
    case AddUserRow(id, key, hash, kind) => [Insert(id, key, hash, kind)]
    case DropUser(id, kind) => [Delete(id, kind)]
    case Connect(r, input, envs) =>
      if !w.up || Admission(l, w, r) != 0 || CallsOf(input, envs).None? then []
      else ParsedOps(cfg, w.store, CallsOf(input, envs).value)
  }

  function LifeOps(cfg: Cfg, l: T.Limits, events: seq<Event>): seq<Op> {
    if events == [] then []
    else
      var before := events[..|events| - 1];
      LifeOps(cfg, l, before) + StoreOps(cfg, l, Life(cfg, l, before), events[|events| - 1])
  }

  /** No count query of any connection fails. */
  ghost predicate QuietEvents(events: seq<Event>) {
    forall i, k: nat :: 0 <= i < |events| && events[i].Connect? ==> QCount !in events[i].envs(k).fails
  }

  lemma StoreOpsRun(cfg: Cfg, l: T.Limits, w: World, e: Event)
    ensures Serve(cfg, l, w, e).store == Run(cfg, w.store, StoreOps(cfg, l, w, e))
    ensures forall i :: 0 <= i < |StoreOps(cfg, l, w, e)| ==> HonestText(StoreOps(cfg, l, w, e)[i])
    ensures QuietEvents([e]) ==> CountsWork(StoreOps(cfg, l, w, e))
  {
    match e
    case AddUserRow(id, key, hash, kind) =>
      assert Run(cfg, w.store, [Insert(id, key, hash, kind)]) == Step(cfg, w.store, Insert(id, key, hash, kind));
    case DropUser(id, kind) =>
      assert Run(cfg, w.store, [Delete(id, kind)]) == Step(cfg, w.store, Delete(id, kind));
    case Connect(r, input, envs) =>
      var calls := CallsOf(input, envs);
      if calls.Some? {
        BatchIsRun(cfg, w.store, calls.value);
        if QuietEvents([e]) {
          assert [e][0].Connect?;
          assert Quiet(calls.value);
        }
      }
  }

  /** The store of a server is the outcome of a run from the empty store. */
  lemma {:induction false} LifeIsRun(cfg: Cfg, l: T.Limits, events: seq<Event>)
    ensures Life(cfg, l, events).store == Run(cfg, EMPTY, LifeOps(cfg, l, events))
    ensures forall i :: 0 <= i < |LifeOps(cfg, l, events)| ==> HonestText(LifeOps(cfg, l, events)[i])
    ensures QuietEvents(events) ==> CountsWork(LifeOps(cfg, l, events))
  {
    if events != [] {
      var n := |events| - 1;
      var before := events[..n];
      LifeIsRun(cfg, l, before);
      StoreOpsRun(cfg, l, Life(cfg, l, before), events[n]);
      RunConcat(cfg, EMPTY, LifeOps(cfg, l, before), StoreOps(cfg, l, Life(cfg, l, before), events[n]));
      if QuietEvents(events) {
        assert QuietEvents(before);
        assert QuietEvents([events[n]]);
      }
    }
  }

  /** Whatever clients and administrators do, the tables keep their promises and no
      stored message is longer than the limit; the messaging rules hold throughout
      exactly when no send is stored against them, which as documented, and while the
      count queries work, is always so. */
  lemma ServerSafety(cfg: Cfg, l: T.Limits, events: seq<Event>)
    ensures Valid(Life(cfg, l, events).store)
    ensures ShortContents(cfg, Life(cfg, l, events).store)
    ensures RulesThroughout(cfg, EMPTY, LifeOps(cfg, l, events)) <==> NoBreach(cfg, EMPTY, LifeOps(cfg, l, events))
    ensures cfg.reading.AsDocumented? && QuietEvents(events) ==> Rules(Life(cfg, l, events).store)
  {
    var ops := LifeOps(cfg, l, events);
    LifeIsRun(cfg, l, events);
    EmptyStore();
    ReachableValid(cfg, EMPTY, ops);
    ReachableShort(cfg, EMPTY, ops);
    RulesThroughoutIff(cfg, EMPTY, ops);
    if cfg.reading.AsDocumented? && QuietEvents(events) {
      ReachableRules(cfg, EMPTY, ops);
    }
  }

  // ---- The window, end to end ----

  /** The connections the turnstile saw. */
  function Seen(cfg: Cfg, l: T.Limits, events: seq<Event>): seq<T.Request> {
    if events == [] then []
    else
      var n := |events| - 1;
      Seen(cfg, l, events[..n])
      + if events[n].Connect? && Life(cfg, l, events[..n]).up then [events[n].request] else []
  }

  /** How many connections from `a` in [s, s+span) had their request interpreted. */
  function Interpreted(cfg: Cfg, l: T.Limits, events: seq<Event>, a: T.Addr, s: int, span: nat): nat {
    if events == [] then 0
    else
      var n := |events| - 1;
      var w := Life(cfg, l, events[..n]);
      Interpreted(cfg, l, events[..n], a, s, span)
      + Count(events[n].Connect? && w.up && T.Within(events[n].request, a, s, span)
              && Admission(l, w, events[n].request) == 0)
  }

  predicate TimesForward(events: seq<Event>) {
    forall i, j :: 0 <= i < j < |events| && events[i].Connect? && events[j].Connect? ==>
      events[i].request.time <= events[j].request.time
  }

  lemma {:induction false} LifeFollowsTurnstile(cfg: Cfg, l: T.Limits, events: seq<Event>, a: T.Addr, s: int, span: nat)
    ensures Life(cfg, l, events).table == T.TableAfter(Seen(cfg, l, events))
    ensures Interpreted(cfg, l, events, a, s, span) == T.Accepted(l, Seen(cfg, l, events), a, s, span)
  {
    if events != [] {
      var n := |events| - 1;
      LifeFollowsTurnstile(cfg, l, events[..n], a, s, span);
      if events[n].Connect? && Life(cfg, l, events[..n]).up {
        var before := Seen(cfg, l, events[..n]);
        assert (before + [events[n].request])[..|before|] == before;
      } else {
        assert Seen(cfg, l, events) == Seen(cfg, l, events[..n]);
      }
    }
  }

  lemma {:induction false} SeenAreConnections(cfg: Cfg, l: T.Limits, events: seq<Event>, r: T.Request)
    requires r in Seen(cfg, l, events)
    ensures exists i :: 0 <= i < |events| && events[i].Connect? && events[i].request == r
  {
    var n := |events| - 1;
    if r in Seen(cfg, l, events[..n]) {
      SeenAreConnections(cfg, l, events[..n], r);
      var i :| 0 <= i < n && events[..n][i].Connect? && events[..n][i].request == r;
      assert events[i].request == r;
    }
  }

  lemma {:induction false} SeenMonotone(cfg: Cfg, l: T.Limits, events: seq<Event>)
    requires TimesForward(events)
    ensures T.Monotone(Seen(cfg, l, events))
  {
    if events != [] {
      var n := |events| - 1;
      SeenMonotone(cfg, l, events[..n]);
      var before := Seen(cfg, l, events[..n]);
      if events[n].Connect? {
        forall r | r in before
          ensures r.time <= events[n].request.time
        {
          SeenAreConnections(cfg, l, events[..n], r);
        }
        assert T.Monotone(before + [events[n].request]);
      }
      assert before + [] == before;
    }
  }

  /** In any minute (hour), one address gets at most max(1, limit - 1) of its requests
      interpreted, and a refused connection leaves the store as it was. */
  lemma ServerRateLimit(cfg: Cfg, l: T.Limits, events: seq<Event>, a: T.Addr, s: int, w: T.Window)
    requires TimesForward(events)
    ensures Interpreted(cfg, l, events, a, s, w.Span()) <= Max(1, w.Limit(l) - 1)
    ensures forall e: Event :: e.Connect? && Admission(l, Life(cfg, l, events), e.request) != 0 ==>
              Life(cfg, l, events + [e]).store == Life(cfg, l, events).store
  {
    LifeFollowsTurnstile(cfg, l, events, a, s, w.Span());
    SeenMonotone(cfg, l, events);
    T.SlidingWindow(l, Seen(cfg, l, events), a, s, w);
    forall e: Event | e.Connect? && Admission(l, Life(cfg, l, events), e.request) != 0
      ensures Life(cfg, l, events + [e]).store == Life(cfg, l, events).store
    {
      assert (events + [e])[..|events|] == events;
    }
  }
}
