/** The ordered inbox: the `msg_ordered` view, its pages, and what they have to do
    with the log. */
module Inbox {
  import opened Base
  import opened Tables

  // ---- The ordered view ----

  /** `order by sent_at desc, msg_id desc`. */
  predicate Before(a: Msg, b: Msg) {
    a.sentAt > b.sentAt || (a.sentAt == b.sentAt && a.id > b.id)
  }

  ghost predicate Sorted(rows: seq<Msg>) {
    forall i, j :: 0 <= i < j < |rows| ==> Before(rows[i], rows[j])
  }

  function Insert(m: Msg, rows: seq<Msg>): seq<Msg> {
    if rows == [] || Before(m, rows[0]) then [m] + rows else [rows[0]] + Insert(m, rows[1..])
  }

  function Ordered(rows: seq<Msg>): seq<Msg> {
    if rows == [] then [] else Insert(rows[|rows| - 1], Ordered(rows[..|rows| - 1]))
  }

  lemma {:induction false} InsertMultiset(m: Msg, rows: seq<Msg>)
    ensures multiset(Insert(m, rows)) == multiset(rows) + multiset{m}
  {
    if rows != [] && !Before(m, rows[0]) {
      assert rows == [rows[0]] + rows[1..];
      InsertMultiset(m, rows[1..]);
    }
  }

  /** The view holds the rows it sorts. */
  lemma {:induction false} OrderedMultiset(rows: seq<Msg>)
    ensures multiset(Ordered(rows)) == multiset(rows)
  {
    if rows != [] {
      var n := |rows| - 1;
      assert rows == rows[..n] + [rows[n]];
      OrderedMultiset(rows[..n]);
      InsertMultiset(rows[n], Ordered(rows[..n]));
    }
  }

  lemma OrderedMembers(rows: seq<Msg>, m: Msg)
    ensures m in Ordered(rows) <==> m in rows
  {
    OrderedMultiset(rows);
    assert m in Ordered(rows) <==> m in multiset(Ordered(rows));
    assert m in rows <==> m in multiset(rows);
  }

  lemma {:induction false} InsertSorted(m: Msg, rows: seq<Msg>)
    requires Sorted(rows)
    requires forall r :: r in rows ==> r.id != m.id
    ensures Sorted(Insert(m, rows))
  {
    if rows != [] && !Before(m, rows[0]) {
      var x, rest := rows[0], rows[1..];
      InsertSorted(m, rest);
      InsertMultiset(m, rest);
      assert x in rows;
      forall r | r in Insert(m, rest)
        ensures Before(x, r)
      {
        assert r in multiset(Insert(m, rest));
        if r != m {
          assert r in multiset(rest);
        }
      }
    }
  }

  lemma {:induction false} OrderedSorted(rows: seq<Msg>)
    requires Increasing(rows)
    ensures Sorted(Ordered(rows))
  {
    if rows != [] {
      var n := |rows| - 1;
      OrderedSorted(rows[..n]);
      forall r | r in Ordered(rows[..n])
        ensures r.id != rows[n].id
      {
        OrderedMembers(rows[..n], r);
      }
      InsertSorted(rows[n], Ordered(rows[..n]));
    }
  }

  lemma SameHead(a: seq<Msg>, b: seq<Msg>)
    requires Sorted(a) && Sorted(b) && multiset(a) == multiset(b) && a != [] && b != []
    ensures a[0] == b[0]
  {
    assert a[0] in multiset(b) && b[0] in multiset(a);
    var i :| 0 <= i < |b| && b[i] == a[0];
    var j :| 0 <= j < |a| && a[j] == b[0];
  }

  /** There is one way to sort: the view is determined by its rows. */
  lemma {:induction false} SortedUnique(a: seq<Msg>, b: seq<Msg>)
    requires Sorted(a) && Sorted(b) && multiset(a) == multiset(b)
    ensures a == b
  {
    assert |multiset(a)| == |a| && |multiset(b)| == |b|;
    if a != [] {
      SameHead(a, b);
      assert a == [a[0]] + a[1..] && b == [b[0]] + b[1..];
      assert multiset(a[1..]) == multiset(a) - multiset{a[0]};
      assert multiset(b[1..]) == multiset(b) - multiset{b[0]};
      SortedUnique(a[1..], b[1..]);
    }
  }

  function SentTo(recipient: int): Msg -> bool {
    (m: Msg) => m.recipient == recipient
  }

  /** The rows `db_get_inbox` selects from, before limit and offset. */
  function InboxRows(s: Store, recipient: int): seq<Msg> {
    Filter(Ordered(Live(s)), SentTo(recipient))
  }

  // ---- Pages ----

  /** SQL's `limit` and `offset`. */
  function Slice<T>(rows: seq<T>, limit: nat, offset: nat): seq<T> {
    var lo := Min(offset, |rows|);
    rows[lo..Min(lo + limit, |rows|)]
  }

  /** The first `k` pages, one after the other. */
  function Pages<T>(rows: seq<T>, limit: nat, k: nat): seq<T> {
    if k == 0 then [] else Pages(rows, limit, k - 1) + Slice(rows, limit, limit * (k - 1))
  }

  lemma {:induction false} PagesArePrefix<T>(rows: seq<T>, limit: nat, k: nat)
    ensures Pages(rows, limit, k) == rows[..Min(limit * k, |rows|)]
  {
    if k > 0 {
      PagesArePrefix(rows, limit, k - 1);
      assert limit * k == limit * (k - 1) + limit;
      assert 0 <= limit * (k - 1);
    }
  }

  /** Enough pages of a positive size give every row once, in order. */
  lemma PagesPartition<T>(rows: seq<T>, limit: nat, k: nat)
    requires limit * k >= |rows|
    ensures Pages(rows, limit, k) == rows
  {
    PagesArePrefix(rows, limit, k);
  }

  // ---- The inbox is the log read backwards ----

  ghost predicate ClockOrdered(log: seq<Msg>) {
    forall i, j :: 0 <= i < j < |log| ==> log[i].sentAt <= log[j].sentAt
  }

  lemma {:induction false} OrderedIsReverse(rows: seq<Msg>)
    requires Increasing(rows) && ClockOrdered(rows)
    ensures Ordered(rows) == Reverse(rows)
  {
    if rows != [] {
      var n := |rows| - 1;
      OrderedIsReverse(rows[..n]);
      var rest := Reverse(rows[..n]);
      if rest != [] {
        assert rest[0] == rows[n - 1];
      }
    }
  }

  lemma {:induction false} FilterKeepsClock(log: seq<Msg>, p: Msg -> bool)
    requires ClockOrdered(log)
    ensures ClockOrdered(Filter(log, p))
  {
    if log != [] {
      var n := |log| - 1;
      FilterKeepsClock(log[..n], p);
      var r := Filter(log[..n], p);
      forall m | m in r
        ensures m.sentAt <= log[n].sentAt
      {
        assert m in log[..n];
      }
      assert ClockOrdered(r + [log[n]]);
    }
  }

  function LiveFor(recipient: int): Msg -> bool {
    (m: Msg) => IsLive(m) && m.recipient == recipient
  }

  /** Under a clock that never ran backwards, the inbox is the log filtered to the
      recipient's live messages, read backwards. */
  lemma InboxIsReversedLog(s: Store, recipient: int)
    requires Valid(s) && ClockOrdered(s.log)
    ensures InboxRows(s, recipient) == Reverse(Filter(s.log, LiveFor(recipient)))
  {
    FilterKeepsOrder(s.log, IsLive);
    FilterKeepsClock(s.log, IsLive);
    OrderedIsReverse(Live(s));
    FilterReverse(Live(s), SentTo(recipient));
    FilterFilter(s.log, IsLive, SentTo(recipient), LiveFor(recipient));
  }

  /** Whatever the clock did, the inbox holds exactly the recipient's live messages,
      strictly sorted by date, then id, latest first, so each of them once. */
  lemma InboxHoldsLiveMessages(s: Store, recipient: int)
    requires Valid(s)
    ensures var rows := InboxRows(s, recipient);
            forall i, j :: 0 <= i < j < |rows| ==>
              rows[i].sentAt > rows[j].sentAt || (rows[i].sentAt == rows[j].sentAt && rows[i].id > rows[j].id)
    ensures forall m :: m in InboxRows(s, recipient) <==> m in s.log && IsLive(m) && m.recipient == recipient
  {
    FilterKeepsOrder(s.log, IsLive);
    OrderedSorted(Live(s));
    FilterSorted(Ordered(Live(s)), SentTo(recipient));
    forall m
      ensures m in InboxRows(s, recipient) <==> m in s.log && IsLive(m) && m.recipient == recipient
    {
      OrderedMembers(Live(s), m);
      assert m in Live(s) <==> m in s.log && IsLive(m);
    }
  }

  lemma {:induction false} FilterSorted(rows: seq<Msg>, p: Msg -> bool)
    requires Sorted(rows)
    ensures Sorted(Filter(rows, p))
  {
    if rows != [] {
      var n := |rows| - 1;
      FilterSorted(rows[..n], p);
      var r := Filter(rows[..n], p);
      forall m | m in r
        ensures Before(m, rows[n])
      {
        assert m in rows[..n];
      }
      assert Sorted(r + [rows[n]]);
    }
  }

  // ---- Removing a message ----

  function NotMsg(id: int): Msg -> bool {
    (m: Msg) => m.id != id
  }

  lemma {:induction false} LiveAfterSetDeleted(log: seq<Msg>, id: int, age: int)
    ensures Filter(SetDeleted(log, id, age), IsLive) == Filter(Filter(log, IsLive), NotMsg(id))
  {
    if log != [] {
      var n := |log| - 1;
      LiveAfterSetDeleted(log[..n], id, age);
      assert SetDeleted(log, id, age)[..n] == SetDeleted(log[..n], id, age);
      var last := if IsLive(log[n]) then [log[n]] else [];
      FilterConcat(Filter(log[..n], IsLive), last, NotMsg(id));
    }
  }

  /** Filtering commutes with the view's order. */
  lemma OrderedFilter(rows: seq<Msg>, p: Msg -> bool)
    requires Increasing(rows)
    ensures Ordered(Filter(rows, p)) == Filter(Ordered(rows), p)
  {
    OrderedSorted(rows);
    FilterSorted(Ordered(rows), p);
    FilterKeepsOrder(rows, p);
    OrderedSorted(Filter(rows, p));
    OrderedMultiset(rows);
    OrderedMultiset(Filter(rows, p));
    FilterMultiset(rows, p);
    FilterMultiset(Ordered(rows), p);
    SortedUnique(Ordered(Filter(rows, p)), Filter(Ordered(rows), p));
  }

  /** After a successful delete the message has left every inbox; the others are
      there unchanged and in the same order. */
  lemma RmTakesOutOne(s: Store, now: int, id: int, recipient: int)
    requires Valid(s) && RmMsg(s, now, id).1 == OK
    ensures InboxRows(RmMsg(s, now, id).0, recipient) == Filter(InboxRows(s, recipient), NotMsg(id))
  {
    var age := SecondsDiff(now, FindMsg(Live(s), id).value.sentAt);
    LiveAfterSetDeleted(s.log, id, age);
    FilterKeepsOrder(s.log, IsLive);
    OrderedFilter(Live(s), NotMsg(id));
    FilterCommute(Ordered(Live(s)), NotMsg(id), SentTo(recipient));
  }

  /** The row of a deleted message stays in the log, marked; every other row is untouched. */
  lemma RmKeepsTheRow(s: Store, now: int, id: int)
    requires Valid(s) && RmMsg(s, now, id).1 == OK
    ensures var t := RmMsg(s, now, id).0;
            && |t.log| == |s.log|
            && (forall i :: 0 <= i < |s.log| && s.log[i].id != id ==> t.log[i] == s.log[i])
            && exists i :: 0 <= i < |s.log| && s.log[i].id == id && IsLive(s.log[i])
                           && t.log[i] == s.log[i].(deletedAge := t.log[i].deletedAge) && !IsLive(t.log[i])
  {
  }

  lemma FilterCommute(rows: seq<Msg>, p: Msg -> bool, q: Msg -> bool)
    ensures Filter(Filter(rows, p), q) == Filter(Filter(rows, q), p)
  {
    var both := (m: Msg) => p(m) && q(m);
    FilterFilter(rows, p, q, both);
    FilterFilter(rows, q, p, both);
  }
}
