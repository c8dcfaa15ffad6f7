/** The rate limiter in front of the server (src/server/tchatator413-server.c). */
module Turnstile {
  import opened Base

  type Addr = int

  /** What the table remembers of one address. */
  datatype Stats = Stats(last: nat, h: nat, m: nat)

  datatype Limits = Limits(m: int, h: int)

  datatype Request = Request(addr: Addr, time: nat)

  type Table = map<Addr, Stats>

  function Lookup(table: Table, a: Addr): Option<Stats> {
    if a in table then Some(table[a]) else None
  }

  /** The entry after a request at time `t`. */
  function Bump(entry: Option<Stats>, t: nat): Stats {
    match entry
    case None => Stats(t, 1, 1)
    case Some(st) =>
      var gap := t - st.last;
      Stats(t, (if gap >= 3600 then 0 else st.h) + 1, (if gap >= 60 then 0 else st.m) + 1)
  }

  /** The value returned for a request at time `t`: 0 lets it pass. */
  function Answer(l: Limits, entry: Option<Stats>, t: nat): int {
    match entry
    case None => 0
    case Some(st) =>
      var gap := t - st.last;
      var after := Bump(entry, t);
      if after.m >= l.m then t + 60 - gap
      else if after.h >= l.h then t + 3600 - gap
      else 0
  }

  /** The turnstile hash map, updated in place. */
  class Turnstile {
    var entries: Table

    constructor ()
      ensures entries == map[]
    {
      entries := map[];
    }

    /** `turnstile_rate_limit`: 0 passes, anything else is the announced time of the next allowed request. */
    method RateLimit(l: Limits, a: Addr, t: nat) returns (next: int)
      modifies this
      ensures entries == old(entries)[a := Bump(Lookup(old(entries), a), t)]
      ensures next == Answer(l, Lookup(old(entries), a), t)
    {
      if a !in entries {
        entries := entries[a := Stats(t, 1, 1)];
        return 0;
      }
      var gap := t - entries[a].last;
      var m, h := entries[a].m, entries[a].h;
      if gap >= 60 {
        m := 0;
      }
      if gap >= 3600 {
        h := 0;
      }
      m := m + 1;
      h := h + 1;
      entries := entries[a := Stats(t, h, m)];
      if m >= l.m {
        return t + 60 - gap;
      }
      if h >= l.h {
        return t + 3600 - gap;
      }
      return 0;
    }
  }

  // ---- Runs ----

  /** The table after a run that starts from an empty one. */
  function TableAfter(reqs: seq<Request>): Table {
    if reqs == [] then map[]
    else
      var before := TableAfter(reqs[..|reqs| - 1]);
      var r := reqs[|reqs| - 1];
      before[r.addr := Bump(Lookup(before, r.addr), r.time)]
  }

  /** What the i-th request of a run was answered. */
  function Verdict(l: Limits, reqs: seq<Request>, i: nat): int
    requires i < |reqs|
  {
    Answer(l, Lookup(TableAfter(reqs[..i]), reqs[i].addr), reqs[i].time)
  }

  predicate Monotone(reqs: seq<Request>) {
    forall i, j :: 0 <= i < j < |reqs| ==> reqs[i].time <= reqs[j].time
  }

  /** The times at which one address knocked, refused requests included. */
  function Times(reqs: seq<Request>, a: Addr): seq<nat> {
    if reqs == [] then []
    else
      var n := |reqs| - 1;
      Times(reqs[..n], a) + if reqs[n].addr == a then [reqs[n].time] else []
  }

  // ---- The two counters refine the history ----

  /** The two counters of an entry, each with its span of silence and its limit. */
  datatype Window = Minute | Hour {
    function Span(): nat {
      if Minute? then 60 else 3600
    }

    function Count(st: Stats): nat {
      if Minute? then st.m else st.h
    }

    function Limit(l: Limits): int {
      if Minute? then l.m else l.h
    }
  }

  /** The silence before the i-th request. */
  function Gap(ts: seq<nat>, i: int): int
    requires 0 < i < |ts|
  {
    ts[i] as int - ts[i - 1]
  }

  /** `n` is the length of the longest suffix of `ts` whose consecutive gaps are all below `span`. */
  ghost predicate IsStreak(ts: seq<nat>, span: nat, n: nat) {
    && 1 <= n <= |ts|
    && (forall i :: |ts| - n < i < |ts| ==> Gap(ts, i) < span)
    && (n < |ts| ==> Gap(ts, |ts| - n) >= span)
  }

  /** One more request restarts the streak after a silence and extends it otherwise. */
  lemma StreakStep(ts: seq<nat>, span: nat, n: nat, t: nat)
    requires IsStreak(ts, span, n)
    ensures IsStreak(ts + [t], span, (if t - ts[|ts| - 1] >= span then 0 else n) + 1)
  {
    assert forall i :: 0 < i < |ts| ==> Gap(ts + [t], i) == Gap(ts, i);
  }

  /** The entry of `a` says of its history: present, latest request, longest streak. */
  ghost predicate Summarizes(table: Table, ts: seq<nat>, a: Addr, w: Window) {
    && (a in table <==> ts != [])
    && (a in table ==> table[a].last == ts[|ts| - 1] && IsStreak(ts, w.Span(), w.Count(table[a])))
  }

  lemma SummaryStep(table: Table, ts: seq<nat>, a: Addr, w: Window, r: Request)
    requires Summarizes(table, ts, a, w)
    ensures Summarizes(table[r.addr := Bump(Lookup(table, r.addr), r.time)],
                       ts + if r.addr == a then [r.time] else [], a, w)
  {
    if r.addr != a {
      assert ts + [] == ts;
    } else if a in table {
      StreakStep(ts, w.Span(), w.Count(table[a]), r.time);
    }
  }

  /** After any run an address is in the table exactly when it has knocked, its
      `last` field is its latest request and each counter is the length of its
      longest recent streak. */
  lemma {:induction false} CountersRefineHistory(reqs: seq<Request>, a: Addr, w: Window)
    ensures Summarizes(TableAfter(reqs), Times(reqs, a), a, w)
  {
    if reqs != [] {
      var n := |reqs| - 1;
      CountersRefineHistory(reqs[..n], a, w);
      SummaryStep(TableAfter(reqs[..n]), Times(reqs[..n], a), a, w, reqs[n]);
    }
  }

  /** The longest streak is unique, so the counters are determined by the history. */
  lemma StreakUnique(ts: seq<nat>, span: nat, n: nat, k: nat)
    requires IsStreak(ts, span, n) && IsStreak(ts, span, k)
    ensures n == k
  {
  }

  /** The minute streak is part of the hour streak. */
  lemma MinuteWithinHour(reqs: seq<Request>, a: Addr)
    requires a in TableAfter(reqs)
    ensures 1 <= TableAfter(reqs)[a].m <= TableAfter(reqs)[a].h <= |Times(reqs, a)|
  {
    CountersRefineHistory(reqs, a, Minute);
    CountersRefineHistory(reqs, a, Hour);
  }

  /** A first request always passes; a later one passes exactly when the streaks it
      completes are both below their limits.  Otherwise it is told the time of the one
      before it plus a minute, or plus an hour when the hour alone is full. */
  lemma PassesIffStreaksBelowLimits(l: Limits, reqs: seq<Request>, m: nat, h: nat)
    requires Monotone(reqs) && reqs != []
    requires var ts := Times(reqs, reqs[|reqs| - 1].addr); IsStreak(ts, 60, m) && IsStreak(ts, 3600, h)
    ensures var i := |reqs| - 1;
            Verdict(l, reqs, i) == 0 <==> |Times(reqs, reqs[i].addr)| == 1 || (m < l.m && h < l.h)
    ensures var i, ts := |reqs| - 1, Times(reqs, reqs[|reqs| - 1].addr);
            |ts| > 1 && !(m < l.m && h < l.h) ==>
              Verdict(l, reqs, i) == ts[|ts| - 2] + if m >= l.m then 60 else 3600
  {
    var i := |reqs| - 1;
    var a := reqs[i].addr;
    var ts := Times(reqs, a);
    CountersRefineHistory(reqs, a, Minute);
    CountersRefineHistory(reqs, a, Hour);
    StreakUnique(ts, 60, m, TableAfter(reqs)[a].m);
    StreakUnique(ts, 3600, h, TableAfter(reqs)[a].h);
    LastSeenInThePast(reqs[..i], a, reqs[i].time);
    CountersRefineHistory(reqs[..i], a, Minute);
  }

  /** No entry of a run is newer than a bound on the run's times. */
  lemma {:induction false} LastSeenInThePast(reqs: seq<Request>, a: Addr, t: nat)
    requires forall i :: 0 <= i < |reqs| ==> reqs[i].time <= t
    ensures a in TableAfter(reqs) ==> TableAfter(reqs)[a].last <= t
  {
    if reqs != [] {
      LastSeenInThePast(reqs[..|reqs| - 1], a, t);
    }
  }

  // ---- Sliding window ----

  predicate Within(r: Request, a: Addr, s: int, span: nat) {
    r.addr == a && s <= r.time < s + span
  }

  /** How many requests of `a` in [s, s+span) the run let pass. */
  function Accepted(l: Limits, reqs: seq<Request>, a: Addr, s: int, span: nat): nat {
    if reqs == [] then 0
    else
      var n := |reqs| - 1;
      Accepted(l, reqs[..n], a, s, span)
      + if Within(reqs[n], a, s, span) && Verdict(l, reqs, n) == 0 then 1 else 0
  }

  function Knocks(reqs: seq<Request>, a: Addr, s: int, span: nat): nat {
    if reqs == [] then 0
    else
      var n := |reqs| - 1;
      Knocks(reqs[..n], a, s, span) + if Within(reqs[n], a, s, span) then 1 else 0
  }

  /** While the last request of `a` lies in the window, the counter covers every knock in it. */
  lemma {:induction false} CounterCoversWindow(reqs: seq<Request>, a: Addr, s: int, w: Window)
    requires Monotone(reqs)
    ensures a in TableAfter(reqs) && s <= TableAfter(reqs)[a].last < s + w.Span() ==>
              Knocks(reqs, a, s, w.Span()) <= w.Count(TableAfter(reqs)[a])
    ensures (a in TableAfter(reqs) ==> TableAfter(reqs)[a].last < s) ==> Knocks(reqs, a, s, w.Span()) == 0
  {
    if reqs != [] {
      var n := |reqs| - 1;
      CounterCoversWindow(reqs[..n], a, s, w);
      LastSeenInThePast(reqs[..n], a, reqs[n].time);
    }
  }

  /** In any half-open interval of 60 s (3600 s), whatever other addresses do, one
      address gets at most max(1, limit - 1) requests through. */
  lemma {:induction false} SlidingWindow(l: Limits, reqs: seq<Request>, a: Addr, s: int, w: Window)
    requires Monotone(reqs)
    ensures Accepted(l, reqs, a, s, w.Span()) <= Max(1, w.Limit(l) - 1)
    ensures Accepted(l, reqs, a, s, w.Span()) <= Knocks(reqs, a, s, w.Span())
  {
    if reqs != [] {
      var n := |reqs| - 1;
      SlidingWindow(l, reqs[..n], a, s, w);
      CounterCoversWindow(reqs, a, s, w);
      CounterCoversWindow(reqs[..n], a, s, w);
      LastSeenInThePast(reqs[..n], a, reqs[n].time);
    }
  }

  // ---- Absorption and recovery ----

  /** `r` arrives less than `span` after the previous request of its address. */
  predicate Soon(before: seq<Request>, r: Request, span: nat) {
    r.addr in TableAfter(before) && r.time - TableAfter(before)[r.addr].last < span
  }

  /** Each request of `a` in `more`, made after `pre`, arrives less than `span` after its previous one. */
  predicate KeepsKnocking(pre: seq<Request>, more: seq<Request>, a: Addr, span: nat) {
    more == []
    || var n := |more| - 1;
       KeepsKnocking(pre, more[..n], a, span) && (more[n].addr == a ==> Soon(pre + more[..n], more[n], span))
  }

  lemma {:induction false} StaysFull(l: Limits, pre: seq<Request>, more: seq<Request>, a: Addr, w: Window)
    requires a in TableAfter(pre) && w.Count(TableAfter(pre)[a]) >= w.Limit(l)
    requires KeepsKnocking(pre, more, a, w.Span())
    ensures a in TableAfter(pre + more) && w.Count(TableAfter(pre + more)[a]) >= w.Limit(l)
  {
    if more == [] {
      assert pre + more == pre;
    } else {
      var n := |more| - 1;
      assert (pre + more)[..|pre| + n] == pre + more[..n];
      StaysFull(l, pre, more[..n], a, w);
    }
  }

  /** Once a counter has reached its limit (after `pre`), an address that keeps
      knocking, however long, is refused at its next knock too. */
  lemma Absorption(l: Limits, pre: seq<Request>, more: seq<Request>, r: Request, w: Window)
    requires r.addr in TableAfter(pre) && w.Count(TableAfter(pre)[r.addr]) >= w.Limit(l)
    requires Monotone(pre + more + [r])
    requires KeepsKnocking(pre, more + [r], r.addr, w.Span())
    ensures Verdict(l, pre + more + [r], |pre + more|) != 0
  {
    var before := pre + more;
    assert (before + [r])[..|before|] == before;
    assert (more + [r])[..|more|] == more;
    StaysFull(l, pre, more, r.addr, w);
    forall i | 0 <= i < |before|
      ensures before[i].time <= r.time
    {
      assert (before + [r])[i] == before[i] && (before + [r])[|before|] == r;
    }
    LastSeenInThePast(before, r.addr, r.time);
    FullRefuses(l, TableAfter(before)[r.addr], r.time, w);
  }

  lemma FullRefuses(l: Limits, st: Stats, t: nat, w: Window)
    requires st.last <= t < st.last + w.Span()
    requires w.Count(st) >= w.Limit(l)
    ensures Answer(l, Some(st), t) != 0
  {
  }

  /** What the next request of a known address is answered, by the silence before it. */
  lemma Recovery(l: Limits, st: Stats, t: nat)
    requires st.last <= t
    ensures t - st.last >= 3600 ==> (Answer(l, Some(st), t) == 0 <==> l.m >= 2 && l.h >= 2)
    ensures 60 <= t - st.last < 3600 ==> (Answer(l, Some(st), t) == 0 <==> l.m >= 2 && st.h < l.h - 1)
    ensures t - st.last < 60 ==> (Answer(l, Some(st), t) == 0 <==> st.m < l.m - 1 && st.h < l.h - 1)
    ensures l.m >= 2 && l.h >= 2 && Answer(l, Some(st), t) != 0 ==> t < Answer(l, Some(st), t) <= t + 3600
    ensures l.m >= 2 && Bump(Some(st), t).m >= l.m ==> t < Answer(l, Some(st), t) <= t + 60
  {
  }

  /** However many requests others make, an address's entry and history stay as they were. */
  lemma {:induction false} OtherEntriesUntouched(pre: seq<Request>, more: seq<Request>, a: Addr)
    requires forall i :: 0 <= i < |more| ==> more[i].addr != a
    ensures Lookup(TableAfter(pre + more), a) == Lookup(TableAfter(pre), a)
    ensures Times(pre + more, a) == Times(pre, a)
  {
    if more == [] {
      assert pre + more == pre;
    } else {
      var n := |more| - 1;
      assert (pre + more)[..|pre| + n] == pre + more[..n];
      OtherEntriesUntouched(pre, more[..n], a);
    }
  }

  // ---- What the announced time is worth ----

  /** The time a refusal announces is described as the time of the next allowed
      request.  It is not, since the refusal itself restarts the silence: a client
      that comes back exactly then (or at once, if that time is past) is let in if
      and only if both limits are at least 2, the refused request came in the same
      second as the one before it and, for a refusal by the minute counter, the hour
      counter still has room for one more. */
  lemma AnnouncedTimeSufficesIff(l: Limits, st: Stats, t: nat)
    requires st.last <= t && Answer(l, Some(st), t) != 0
    ensures var back := Max(t, Answer(l, Some(st), t));
            Answer(l, Some(Bump(Some(st), t)), back) == 0
            <==> l.m >= 2 && l.h >= 2 && t == st.last && (st.m + 1 >= l.m ==> st.h + 2 < l.h)
  {
  }

  /** The limits the server starts with. */
  const DEFAULT_LIMITS := Limits(12, 90)

  /** `n` requests of address 1, a second apart. */
  function Burst(n: nat): seq<Request> {
    if n == 0 then [] else Burst(n - 1) + [Request(1, n)]
  }

  lemma {:induction false} AfterBurst(n: nat)
    ensures |Burst(n)| == n
    ensures n > 0 ==> TableAfter(Burst(n)) == map[1 := Stats(n, n, n)]
    ensures Knocks(Burst(n), 1, 0, 60) == Min(n, 59)
  {
    if n > 0 {
      AfterBurst(n - 1);
      assert Burst(n)[..n - 1] == Burst(n - 1);
    }
  }

  /** Under the default limits, the twelfth of twelve requests a second apart is
      refused with the announced time 71, and the request that comes back at 71 is
      refused again. */
  lemma AnnouncedTimeFails()
    ensures |Burst(12)| == 12
    ensures Verdict(DEFAULT_LIMITS, Burst(12), 11) == 71
    ensures Verdict(DEFAULT_LIMITS, Burst(12) + [Request(1, 71)], 12) != 0
  {
    AfterBurst(12);
    AfterBurst(11);
    assert Burst(12) == Burst(11) + [Request(1, 12)];
    assert Burst(12)[..11] == Burst(11);
    assert (Burst(12) + [Request(1, 71)])[..12] == Burst(12);
  }

  // ---- The table passed by value ----

  /** As written, the function updates its own copy of the table pointer while the
      caller keeps its null one, so every call starts from an empty table. */
  function VerdictByValue(l: Limits, reqs: seq<Request>, i: nat): int
    requires i < |reqs|
  {
    Answer(l, Lookup(map[], reqs[i].addr), reqs[i].time)
  }

  function AcceptedByValue(l: Limits, reqs: seq<Request>, a: Addr, s: int, span: nat): nat {
    if reqs == [] then 0
    else
      var n := |reqs| - 1;
      AcceptedByValue(l, reqs[..n], a, s, span)
      + if Within(reqs[n], a, s, span) && VerdictByValue(l, reqs, n) == 0 then 1 else 0
  }

  /** So it lets every request pass: what a window lets through is what knocks in it,
      and the window bound holds exactly when the clients keep to it by themselves. */
  lemma {:induction false} ByValueNeverRefuses(l: Limits, reqs: seq<Request>, a: Addr, s: int, w: Window)
    ensures forall i :: 0 <= i < |reqs| ==> VerdictByValue(l, reqs, i) == 0
    ensures AcceptedByValue(l, reqs, a, s, w.Span()) == Knocks(reqs, a, s, w.Span())
  {
    if reqs != [] {
      ByValueNeverRefuses(l, reqs[..|reqs| - 1], a, s, w);
    }
  }

  /** Passed by value, all twelve requests of a burst get through within a minute; the
      persistent table stops at the eleven the default limit allows. */
  lemma ByValueBreaksWindow()
    ensures AcceptedByValue(DEFAULT_LIMITS, Burst(12), 1, 0, 60) == 12
    ensures Accepted(DEFAULT_LIMITS, Burst(12), 1, 0, 60) <= 11
  {
    AfterBurst(12);
    ByValueNeverRefuses(DEFAULT_LIMITS, Burst(12), 1, 0, Minute);
    BurstMonotone(12);
    SlidingWindow(DEFAULT_LIMITS, Burst(12), 1, 0, Minute);
  }

  lemma {:induction false} BurstMonotone(n: nat)
    ensures |Burst(n)| == n && forall i :: 0 <= i < n ==> Burst(n)[i] == Request(1, i + 1)
  {
    if n > 0 {
      BurstMonotone(n - 1);
    }
  }
}
