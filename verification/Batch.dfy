/** Requests: a list of actions interpreted one after the other
    (`tchatator413_interpret` of src/server/tchatator413.c). */
module Batch {
  import opened Base
  import opened Json
  import opened Tables
  import opened Actions
  import opened Effects
  import opened Parse
  import opened Runs

  /** One element of a request and what its action meets. */
  datatype Call = Call(json: Json, env: Env)

  /** `aborted`: a null element fails the source's assertion, after the actions
      before it have taken effect. */
  datatype Outcome = Outcome(store: Store, responses: seq<Response>, aborted: bool)

  /** `act`: parse, then evaluate. */
  function Perform1(cfg: Cfg, s: Store, call: Call): (Store, Response) {
    Evaluate(cfg, call.env, s, ParseAction(call.env, s, call.json))
  }

  function RunBatch(cfg: Cfg, s: Store, calls: seq<Call>): Outcome
    decreases calls
  {
    if calls == [] then Outcome(s, [], false)
    else if calls[0].json.JNull? then Outcome(s, [], true)
    else
      var (t, r) := Perform1(cfg, s, calls[0]);
      var rest := RunBatch(cfg, t, calls[1..]);
      rest.(responses := [r] + rest.responses)
  }

  function Calls(items: seq<Json>, envs: nat -> Env): (r: seq<Call>)
    ensures |r| == |items|
    ensures forall i :: 0 <= i < |items| ==> r[i] == Call(items[i], envs(i))
  {
    seq(|items|, i requires 0 <= i < |items| => Call(items[i], envs(i)))
  }

  /** The elements of a request, if it is a list or a single action. */
  function CallsOf(input: Json, envs: nat -> Env): Option<seq<Call>> {
    match input
    case JArray(items) => Some(Calls(items, envs))
    case JObject(_) => Some([Call(input, envs(0))])
    case _ => None
  }

  /** `tchatator413_interpret`. */
  function Interpret(cfg: Cfg, s: Store, input: Json, envs: nat -> Env): Outcome {
    match CallsOf(input, envs)
    case Some(calls) => RunBatch(cfg, s, calls)
    case None => Outcome(s, [ErrorResponse(WrongType("request", input, TObject))], false)
  }

  // ---- Batch laws ----

  /** Interpreting one list after another is interpreting them joined, unless the
      first aborts. */
  lemma {:induction false} BatchConcat(cfg: Cfg, s: Store, xs: seq<Call>, ys: seq<Call>)
    ensures var first := RunBatch(cfg, s, xs);
            RunBatch(cfg, s, xs + ys)
            == if first.aborted then first
               else
                 var second := RunBatch(cfg, first.store, ys);
                 second.(responses := first.responses + second.responses)
    decreases xs
  {
    if xs == [] {
      assert xs + ys == ys;
    } else if !xs[0].json.JNull? {
      assert (xs + ys)[1..] == xs[1..] + ys;
      var (t, r) := Perform1(cfg, s, xs[0]);
      BatchConcat(cfg, t, xs[1..], ys);
    }
  }

  /** One response per action, in order, each computed in the store the earlier
      actions left; the batch aborts exactly when an element is null. */
  lemma {:induction false} OneResponseEach(cfg: Cfg, s: Store, calls: seq<Call>)
    ensures var out := RunBatch(cfg, s, calls);
            && (out.aborted <==> exists i :: 0 <= i < |calls| && calls[i].json.JNull?)
            && (!out.aborted ==> |out.responses| == |calls|)
            && |out.responses| <= |calls|
            && forall i :: 0 <= i < |out.responses| ==>
                 out.responses[i] == Perform1(cfg, RunBatch(cfg, s, calls[..i]).store, calls[i]).1
    decreases calls
  {
    if calls != [] && !calls[0].json.JNull? {
      var (t, r) := Perform1(cfg, s, calls[0]);
      OneResponseEach(cfg, t, calls[1..]);
      var out := RunBatch(cfg, s, calls);
      assert forall i :: 0 < i < |calls| ==> calls[i] == calls[1..][i - 1];
      assert out.aborted <==> exists i :: 0 <= i < |calls| && calls[i].json.JNull? by {
        if i :| 0 <= i < |calls[1..]| && calls[1..][i].json.JNull? {
          assert calls[i + 1].json.JNull?;
        }
      }
      forall i | 0 < i < |out.responses|
        ensures out.responses[i] == Perform1(cfg, RunBatch(cfg, s, calls[..i]).store, calls[i]).1
      {
        assert calls[..i][1..] == calls[1..][..i - 1];
      }
    }
  }

  /** The empty list gives the empty list, an action alone gives what its one-element
      list gives, and any other request gets one type error and changes nothing. */
  lemma RequestForms(cfg: Cfg, s: Store, input: Json, envs: nat -> Env)
    ensures Interpret(cfg, s, JArray([]), envs) == Outcome(s, [], false)
    ensures input.JObject? ==> Interpret(cfg, s, input, envs) == Interpret(cfg, s, JArray([input]), envs)
    ensures !input.JObject? && !input.JArray? ==>
              Interpret(cfg, s, input, envs)
              == Outcome(s, [ErrorResponse(WrongType("request", input, TObject))], false)
  {
    assert Calls([input], envs) == [Call(input, envs(0))];
  }

  // ---- A batch is a run ----

  /** The actions a batch evaluates, as operations of a run. */
  function ParsedOps(cfg: Cfg, s: Store, calls: seq<Call>): seq<Op>
    decreases calls
  {
    if calls == [] || calls[0].json.JNull? then []
    else
      [Act(calls[0].env, ParseAction(calls[0].env, s, calls[0].json))]
      + ParsedOps(cfg, Perform1(cfg, s, calls[0]).0, calls[1..])
  }

  predicate Quiet(calls: seq<Call>) {
    forall i :: 0 <= i < |calls| ==> QCount !in calls[i].env.fails
  }

  lemma {:induction false} BatchIsRun(cfg: Cfg, s: Store, calls: seq<Call>)
    ensures RunBatch(cfg, s, calls).store == Run(cfg, s, ParsedOps(cfg, s, calls))
    ensures OnlyActions(ParsedOps(cfg, s, calls))
    ensures forall i :: 0 <= i < |ParsedOps(cfg, s, calls)| ==> HonestText(ParsedOps(cfg, s, calls)[i])
    ensures Quiet(calls) ==> CountsWork(ParsedOps(cfg, s, calls))
    decreases calls
  {
    if calls != [] && !calls[0].json.JNull? {
      var t := Perform1(cfg, s, calls[0]).0;
      var a := ParseAction(calls[0].env, s, calls[0].json);
      BatchIsRun(cfg, t, calls[1..]);
      ParsedActionsAreSane(calls[0].env, s, calls[0].json);
      var rest := ParsedOps(cfg, t, calls[1..]);
      assert ([Act(calls[0].env, a)] + rest)[1..] == rest;
    }
  }

  function ReportsStored(): Response -> bool {
    (r: Response) => StoredId(r).Some?
  }

  function ReportsRemoved(): Response -> bool {
    (r: Response) => r == REMOVED
  }

  /** Over any batch, aborted or not, the log grows by as many messages as responses
      report stored, and the live messages by these minus those reported removed. */
  lemma {:induction false} BatchConservation(cfg: Cfg, s: Store, calls: seq<Call>)
    requires Valid(s)
    ensures var out := RunBatch(cfg, s, calls);
            var stored, removed := |Filter(out.responses, ReportsStored())|, |Filter(out.responses, ReportsRemoved())|;
            && Valid(out.store) && SameUsers(s, out.store)
            && |out.store.log| == |s.log| + stored
            && |Live(out.store)| == |Live(s)| + stored - removed
    decreases calls
  {
    if calls != [] && !calls[0].json.JNull? {
      var (t, r) := Perform1(cfg, s, calls[0]);
      EvaluateEffect(cfg, calls[0].env, s, ParseAction(calls[0].env, s, calls[0].json));
      BatchConservation(cfg, t, calls[1..]);
      var rest := RunBatch(cfg, t, calls[1..]).responses;
      FilterConcat([r], rest, ReportsStored());
      FilterConcat([r], rest, ReportsRemoved());
      assert |Filter([r], ReportsStored())| == Count(StoredId(r).Some?);
      assert |Filter([r], ReportsRemoved())| == Count(r == REMOVED);
    }
  }
}
