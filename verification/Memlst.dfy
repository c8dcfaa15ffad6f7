/** The memory list of src/common/memlst.c: an arena of pointers with destructors. */
module Memlst {
  import opened Base

  type Ptr = nat
  const NULL: Ptr := 0

  datatype Entry = Entry(ptr: Ptr, dtor: int)

  ghost predicate Distinct(es: seq<Entry>) {
    forall i, j :: 0 <= i < j < |es| ==> es[i].ptr != es[j].ptr
  }

  predicate Holds(es: seq<Entry>, p: Ptr) {
    exists e :: e in es && e.ptr == p
  }

  // ---- Runs ----

  datatype Op = Add(dtor: int, ptr: Ptr) | Collect

  datatype State = State(live: seq<Entry>, calls: seq<Entry>)

  /** One operation; None is the failed assertion of a duplicate add. */
  function Apply(st: State, op: Op): Option<State> {
    match op
    case Add(d, p) =>
      if p == NULL then Some(st)
      else if Holds(st.live, p) then None
      else Some(st.(live := st.live + [Entry(p, d)]))
    case Collect => Some(State([], st.calls + st.live))
  }

  function Run(ops: seq<Op>): Option<State> {
    if ops == [] then Some(State([], []))
    else
      match Run(ops[..|ops| - 1])
      case None => None
      case Some(st) => Apply(st, ops[|ops| - 1])
  }

  lemma RunSnoc(ops: seq<Op>, op: Op)
    ensures Run(ops + [op]) == match Run(ops) { case None => None case Some(st) => Apply(st, op) }
  {
    assert (ops + [op])[..|ops|] == ops;
  }

  /** Every non-null registration, in order. */
  function Registered(ops: seq<Op>): seq<Entry> {
    if ops == [] then []
    else
      var op := ops[|ops| - 1];
      Registered(ops[..|ops| - 1]) + if op.Add? && op.ptr != NULL then [Entry(op.ptr, op.dtor)] else []
  }

  /** Destructor calls followed by live entries are the registrations in order, no
      pointer is live twice, and destroying the list then releases each
      registration exactly once. */
  lemma {:induction false} NothingLostNothingTwice(ops: seq<Op>)
    requires Run(ops).Some?
    ensures Run(ops).value.calls + Run(ops).value.live == Registered(ops)
    ensures Distinct(Run(ops).value.live)
    ensures Run(ops + [Collect]) == Some(State([], Registered(ops)))
  {
    RunSnoc(ops, Collect);
    if ops != [] {
      var before := ops[..|ops| - 1];
      NothingLostNothingTwice(before);
      var op := ops[|ops| - 1];
      if op.Add? && op.ptr != NULL {
        var st := Run(before).value;
        assert st.calls + (st.live + [Entry(op.ptr, op.dtor)]) == Registered(before) + [Entry(op.ptr, op.dtor)];
      }
    }
  }

// ---- The list in place ----

  class MemoryList {
    var entries: seq<Entry>
    /** The destructor calls made so far. */
    var calls: seq<Entry>
    /** The operations the list has undergone. */
    ghost var history: seq<Op>

    /** The fields are what the history makes of an empty list. */
    ghost predicate Valid()
      reads this
    {
      Run(history) == Some(State(entries, calls))
    }

    /** `memlst_init`. */
    constructor ()
      ensures Valid() && history == []
    {
      entries, calls, history := [], [], [];
    }

    /** `memlst_add`; a duplicate pointer fails the source's assertion. */
    method Add(dtor: int, ptr: Ptr) returns (r: Ptr)
      requires Valid()
      requires ptr != NULL ==> !Holds(entries, ptr)
      modifies this
      ensures Valid() && history == old(history) + [Op.Add(dtor, ptr)]
      ensures Some(State(entries, calls)) == Apply(State(old(entries), old(calls)), Op.Add(dtor, ptr))
      ensures r == ptr
    {
      RunSnoc(history, Op.Add(dtor, ptr));
      history := history + [Op.Add(dtor, ptr)];
      if ptr == NULL {
        return NULL;
      }
      for i := 0 to |entries| {
        assert entries[i] in entries;
        assert entries[i].ptr != ptr;
      }
      entries := entries + [Entry(ptr, dtor)];
      return ptr;
    }

    /** `memlst_collect`: runs the destructors in order and empties the list. */
    method Collect()
      requires Valid()
      modifies this
      ensures Valid() && history == old(history) + [Op.Collect]
      ensures Some(State(entries, calls)) == Apply(State(old(entries), old(calls)), Op.Collect)
    {
      for i := 0 to |entries|
        invariant entries == old(entries) && calls == old(calls) + entries[..i] && history == old(history)
      {
        calls := calls + [entries[i]];
      }
      assert entries[..|entries|] == entries;
      entries := [];
      RunSnoc(history, Op.Collect);
      history := history + [Op.Collect];
    }

    /** `memlst_destroy`: by then every registration has been released exactly once, in order. */
    method Destroy()
      requires Valid()
      modifies this
      ensures Valid() && history == old(history) + [Op.Collect]
      ensures entries == [] && calls == Registered(old(history))
    {
      NothingLostNothingTwice(history);
      Collect();
    }
  }
}
