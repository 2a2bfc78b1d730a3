/**
  Sliding-window rate limiter of include/utils/rate_limiter.hpp.

  The class keeps one vector of admission times per IP and throws entries away as it
  goes.  The specification below never throws anything away: it looks back over the
  whole history of calls.  Times are ticks of the steady clock.
 */
module RateLimiting {
  import opened Clock

  // Values of a 64-bit size_t.
  const SIZE_T_VALUES := 0x1_0000_0000_0000_0000

  // C++ int
  type CInt = x: int | -0x8000_0000 <= x <= 0x7FFF_FFFF

  datatype Call = Call(now: int, max: CInt, window: CInt)

  // ---------------------------------------------------------------------------------
  // The steps of one call
  // ---------------------------------------------------------------------------------

  /**
    Whether the clean-up erases an entry.  Written without the division of the cast, which
    StaleIsDurationCast puts back.
   */
  predicate Stale(time: int, now: int, window: int) {
    if time <= now then now - time >= (window + 1) * SECOND else now - time > window * SECOND
  }

  /** duration_cast<seconds>(now - time).count() > window, with the cast truncating toward zero. */
  lemma StaleIsDurationCast(time: int, now: int, window: int)
    ensures Stale(time, now, window) <==> WholeSeconds(now - time) > window
  {
  }

  /** std::remove_if followed by erase: the entries that are not stale, in order. */
  function Purge(record: seq<int>, now: int, window: int): seq<int> {
    if record == [] then []
    else
      var front := Purge(record[..|record| - 1], now, window);
      var last := record[|record| - 1];
      if Stale(last, now, window) then front else front + [last]
  }

  /** static_cast<size_t>(max): a negative maximum wraps to a huge one. */
  function AsSize(max: CInt): nat {
    if max < 0 then max + SIZE_T_VALUES else max
  }

  /** Record and answer after one call. */
  function Decide(record: seq<int>, c: Call): (seq<int>, bool) {
    var kept := Purge(record, c.now, c.window);
    if |kept| >= AsSize(c.max) then (kept, false) else (kept + [c.now], true)
  }

  class RateLimiter {
    var requests: map<string, seq<int>>
    ghost var events: seq<Event> // all calls so far
    ghost var answers: seq<bool> // and what was answered

    /** The vectors are what the calls so far have left of the addresses' records. */
    ghost predicate Valid()
      reads this
    {
      && (forall ip :: (if ip in requests then requests[ip] else []) == Record(CallsOf(events, ip)))
      && AnsweredSo(events, answers)
    }

    constructor ()
      ensures Valid() && requests == map[] && events == [] && answers == []
    {
      requests, events, answers := map[], [], [];
    }

    /** The answer that all calls of the address so far lead to. */
    ghost predicate Admits(ip: string, c: Call)
      reads this
    {
      Admitted(CallsOf(events, ip) + [c], |CallsOf(events, ip)|)
    }

    method IsAllowed(ip: string, maxRequests: CInt, windowSeconds: CInt, now: int) returns (allowed: bool)
      requires Valid()
      modifies this
      ensures Valid()
      ensures allowed == old(Admits(ip, Call(now, maxRequests, windowSeconds)))
      ensures events == old(events) + [Event(ip, Call(now, maxRequests, windowSeconds))]
      ensures answers == old(answers) + [allowed]
      ensures forall other :: other != ip ==>
                (other in requests <==> other in old(requests)) &&
                (other in requests ==> requests[other] == old(requests)[other])
    {
      ghost var c := Call(now, maxRequests, windowSeconds);
      ghost var before := requests;
      OneMoreEvent(events, answers, Event(ip, c));
      var record := if ip in requests then requests[ip] else [];
      assert record == Record(CallsOf(events, ip));
      events := events + [Event(ip, c)];
      record := Purge(record, now, windowSeconds);
      requests := requests[ip := record];
      allowed := |record| < AsSize(maxRequests);
      answers := answers + [allowed];
      if !allowed {
        return false;
      }
      requests := requests[ip := record + [now]];
      return true;
    }
  }

  /** A call leaves the records of other addresses alone, and is decided on its own address's. */
  lemma OneMoreEvent(events: seq<Event>, answers: seq<bool>, e: Event)
    requires AnsweredSo(events, answers)
    ensures var more, calls := events + [e], CallsOf(events, e.ip);
      && CallsOf(more, e.ip) == calls + [e.call] && Record(calls + [e.call]) == Decide(Record(calls), e.call).0
      && (forall ip :: ip != e.ip ==> CallsOf(more, ip) == CallsOf(events, ip))
      && (Admitted(calls + [e.call], |calls|) <==> Decide(Record(calls), e.call).1)
      && AnsweredSo(more, answers + [Decide(Record(calls), e.call).1])
  {
    hide Decide, Record;
    var more, calls := events + [e], CallsOf(events, e.ip);
    assert more[..|more| - 1] == events;
    assert (calls + [e.call])[..|calls|] == calls;
    RecordSnoc(calls, e.call);
    forall k | 0 <= k < |events| ensures EventAdmitted(more, k) == EventAdmitted(events, k) {
      assert more[..k] == events[..k];
    }
    assert more[..|events|] == events;
  }

  lemma RecordSnoc(calls: seq<Call>, c: Call)
    ensures Record(calls + [c]) == Decide(Record(calls), c).0
  {
    assert (calls + [c])[..|calls|] == calls;
  }

  // ---------------------------------------------------------------------------------
  // Whole runs
  // ---------------------------------------------------------------------------------

  /** The record of one address after a run of calls. */
  function Record(calls: seq<Call>): seq<int> {
    if calls == [] then []
    else Decide(Record(calls[..|calls| - 1]), calls[|calls| - 1]).0
  }

  /** What the limiter answered to call i of the run. */
  predicate Admitted(calls: seq<Call>, i: nat)
    requires i < |calls|
  {
    Decide(Record(calls[..i]), calls[i]).1
  }

  datatype Event = Event(ip: string, call: Call)

  /** All records after a run of calls from any addresses, as IsAllowed updates them. */
  function Requests(events: seq<Event>): map<string, seq<int>> {
    if events == [] then map[]
    else
      var before := Requests(events[..|events| - 1]);
      var e := events[|events| - 1];
      before[e.ip := Decide(if e.ip in before then before[e.ip] else [], e.call).0]
  }

  /** The calls of one address in a run. */
  function CallsOf(events: seq<Event>, ip: string): seq<Call> {
    if events == [] then []
    else
      var front := CallsOf(events[..|events| - 1], ip);
      var e := events[|events| - 1];
      if e.ip == ip then front + [e.call] else front
  }

  /** Addresses do not influence one another. */
  lemma {:induction false} AddressesAreIsolated(events: seq<Event>, ip: string)
    ensures (if ip in Requests(events) then Requests(events)[ip] else []) == Record(CallsOf(events, ip))
  {
    if events != [] {
      var front := events[..|events| - 1];
      AddressesAreIsolated(front, ip);
      var e := events[|events| - 1];
      if e.ip == ip {
        var calls := CallsOf(front, ip) + [e.call];
        assert calls[..|calls| - 1] == CallsOf(front, ip);
      }
    }
  }

  /** Event k is admitted, by the calls of its own address before it. */
  ghost predicate EventAdmitted(events: seq<Event>, k: nat)
    requires k < |events|
  {
    Decide(Record(CallsOf(events[..k], events[k].ip)), events[k].call).1
  }

  ghost predicate AnsweredSo(events: seq<Event>, answers: seq<bool>) {
    |answers| == |events| && forall k :: 0 <= k < |events| ==> answers[k] == EventAdmitted(events, k)
  }

  // ---------------------------------------------------------------------------------
  // What the record is, in terms of the full history
  // ---------------------------------------------------------------------------------

  /** No call made after call i, up to call n, found call i's time stale. */
  ghost predicate Survives(calls: seq<Call>, i: nat, n: nat)
    requires i < |calls| && n <= |calls|
  {
    forall j :: i < j < n ==> !Stale(calls[i].now, calls[j].now, calls[j].window)
  }

  /** Times of the admitted calls among the first k that survive the first n, in order. */
  ghost function Survivors(calls: seq<Call>, k: nat, n: nat): seq<int>
    requires k <= n <= |calls|
  {
    if k == 0 then []
    else if Admitted(calls, k - 1) && Survives(calls, k - 1, n) then Survivors(calls, k - 1, n) + [calls[k - 1].now]
    else Survivors(calls, k - 1, n)
  }

  lemma PurgeAppend(record: seq<int>, x: int, now: int, window: int)
    ensures Purge(record + [x], now, window) == Purge(record, now, window) + (if Stale(x, now, window) then [] else [x])
  {
  }

  lemma {:induction false} PurgeSurvivors(calls: seq<Call>, k: nat, n: nat)
    requires k <= n < |calls|
    ensures Purge(Survivors(calls, k, n), calls[n].now, calls[n].window) == Survivors(calls, k, n + 1)
  {
    hide Stale, Admitted, Purge, Survives;
    if k > 0 {
      PurgeSurvivors(calls, k - 1, n);
      PurgeAppend(Survivors(calls, k - 1, n), calls[k - 1].now, calls[n].now, calls[n].window);
      SurvivesOneMore(calls, k - 1, n);
    } else {
      assert Purge([], calls[n].now, calls[n].window) == [] by { PurgeNothing(calls[n].now, calls[n].window); }
    }
  }

  lemma PurgeNothing(now: int, window: int)
    ensures Purge([], now, window) == []
  {
  }

  lemma SurvivesOneMore(calls: seq<Call>, i: nat, n: nat)
    requires i < n < |calls|
    ensures Survives(calls, i, n + 1) <==> Survives(calls, i, n) && !Stale(calls[i].now, calls[n].now, calls[n].window)
  {
  }

  /**
    Exact contents of the record after any run, for any mixture of parameters and any
    clock: the admissions that no later call found stale, oldest first.
   */
  lemma {:induction false} RecordIsSurvivors(calls: seq<Call>, n: nat)
    requires n <= |calls|
    ensures Record(calls[..n]) == Survivors(calls, n, n)
  {
    hide Stale;
    if n > 0 {
      RecordIsSurvivors(calls, n - 1);
      PurgeSurvivors(calls, n - 1, n - 1);
      assert calls[..n][..n - 1] == calls[..n - 1];
      assert Survives(calls, n - 1, n);
    }
  }

  /** The answer to call n depends on earlier admissions only, and on those that survive it. */
  lemma {:induction false} AnswerCountsSurvivors(calls: seq<Call>, n: nat)
    requires n < |calls|
    ensures Admitted(calls, n) <==> |Survivors(calls, n, n + 1)| < AsSize(calls[n].max)
  {
    RecordIsSurvivors(calls, n);
    PurgeSurvivors(calls, n, n);
  }

  // ---------------------------------------------------------------------------------
  // A clock that does not run backwards
  // ---------------------------------------------------------------------------------

  ghost predicate Monotone(calls: seq<Call>) {
    forall i, j :: 0 <= i <= j < |calls| ==> calls[i].now <= calls[j].now
  }

  /** Admission times of the first k calls, none of them ever forgotten. */
  ghost function Admissions(calls: seq<Call>, k: nat): seq<int>
    requires k <= |calls|
  {
    if k == 0 then []
    else if Admitted(calls, k - 1) then Admissions(calls, k - 1) + [calls[k - 1].now]
    else Admissions(calls, k - 1)
  }

  /** Number of times in the list that lie less than `span` ticks before now. */
  function CountRecent(times: seq<int>, now: int, span: int): nat {
    if times == [] then 0
    else CountRecent(times[..|times| - 1], now, span) + (if now - times[|times| - 1] < span then 1 else 0)
  }

  /** A window of w seconds covers ages under w + 1 seconds, because the cast truncates. */
  function Span(window: int): int {
    (window + 1) * SECOND
  }

  lemma StaleIsAge(time: int, now: int, window: int)
    requires time <= now
    ensures Stale(time, now, window) <==> now - time >= Span(window)
  {
  }

  lemma {:induction false} SurvivorsAreRecent(calls: seq<Call>, k: nat, n: nat)
    requires k <= n < |calls| && Monotone(calls)
    requires forall i :: 0 <= i <= n ==> calls[i].window == calls[n].window
    ensures |Survivors(calls, k, n + 1)| == CountRecent(Admissions(calls, k), calls[n].now, Span(calls[n].window))
  {
    if k > 0 {
      SurvivorsAreRecent(calls, k - 1, n);
      StaleIsAge(calls[k - 1].now, calls[n].now, calls[n].window);
      forall j | k - 1 < j < n + 1
        ensures Stale(calls[k - 1].now, calls[j].now, calls[j].window) ==>
                Stale(calls[k - 1].now, calls[n].now, calls[n].window)
      {
        StaleIsAge(calls[k - 1].now, calls[j].now, calls[j].window);
      }
      var a := Admissions(calls, k - 1);
      assert (a + [calls[k - 1].now])[..|a|] == a;
    }
  }

  /**
    With one window and a clock that does not run backwards, purging loses nothing:
    a call is admitted exactly when fewer than max of ALL earlier admissions are
    younger than window + 1 seconds.
   */
  lemma {:induction false} PurgedRecordRefinesHistory(calls: seq<Call>, n: nat)
    requires n < |calls| && Monotone(calls)
    requires forall i :: 0 <= i <= n ==> calls[i].window == calls[n].window
    ensures Admitted(calls, n) <==>
            CountRecent(Admissions(calls, n), calls[n].now, Span(calls[n].window)) < AsSize(calls[n].max)
  {
    AnswerCountsSurvivors(calls, n);
    SurvivorsAreRecent(calls, n, n);
  }

  // ---------------------------------------------------------------------------------
  // The answers of the class
  // ---------------------------------------------------------------------------------

  /** How many of the first n calls came from the address, were admitted, and lie less than span ticks back. */
  function CountAnswered(events: seq<Event>, answers: seq<bool>, n: nat, ip: string, now: int, span: int): nat
    requires n <= |events| == |answers|
  {
    if n == 0 then 0
    else
      CountAnswered(events, answers, n - 1, ip, now, span) +
      (if events[n - 1].ip == ip && answers[n - 1] && now - events[n - 1].call.now < span then 1 else 0)
  }

  /** Until call n the address's clock does not run backwards and its calls have one window. */
  ghost predicate OneWindow(events: seq<Event>, n: nat)
    requires n < |events|
  {
    forall i, j :: 0 <= i <= j <= n && events[i].ip == events[j].ip == events[n].ip ==>
      events[i].call.now <= events[j].call.now && events[i].call.window == events[j].call.window
  }

  lemma {:induction false} CallsAreEvents(events: seq<Event>, ip: string, i: nat) returns (k: nat)
    requires i < |CallsOf(events, ip)|
    ensures k < |events| && events[k] == Event(ip, CallsOf(events, ip)[i])
    ensures i == |CallsOf(events[..k], ip)|
  {
    var n := |events| - 1;
    var front := events[..n];
    if i < |CallsOf(front, ip)| {
      k := CallsAreEvents(front, ip, i);
      assert front[..k] == events[..k];
    } else {
      k := n;
    }
  }

  lemma {:induction false} CallsGrow(events: seq<Event>, ip: string, k: nat, n: nat)
    requires k <= n <= |events|
    ensures |CallsOf(events[..k], ip)| <= |CallsOf(events[..n], ip)|
  {
    if k < n {
      CallsGrow(events, ip, k, n - 1);
      assert events[..n][..n - 1] == events[..n - 1];
    }
  }

  lemma {:induction false} AdmissionsOfPrefix(calls: seq<Call>, k: nat, n: nat)
    requires k <= n <= |calls|
    ensures Admissions(calls, k) == Admissions(calls[..n], k)
  {
    hide Decide, Record;
    if k > 0 {
      AdmissionsOfPrefix(calls, k - 1, n);
      assert calls[..n][..k - 1] == calls[..k - 1];
    }
  }

  lemma AdmissionsSnoc(calls: seq<Call>, c: Call)
    ensures Admissions(calls + [c], |calls| + 1) ==
            Admissions(calls, |calls|) + (if Decide(Record(calls), c).1 then [c.now] else [])
  {
    hide Decide, Record;
    var more := calls + [c];
    assert more[..|calls|] == calls;
    AdmissionsOfPrefix(more, |calls|, |calls|);
    assert Admitted(more, |calls|) <==> Decide(Record(calls), c).1;
  }

  lemma CountRecentSnoc(times: seq<int>, x: int, now: int, span: int)
    ensures CountRecent(times + [x], now, span) == CountRecent(times, now, span) + (if now - x < span then 1 else 0)
  {
    assert (times + [x])[..|times|] == times;
  }

  lemma {:induction false} AnsweredAreAdmissions(
    events: seq<Event>, answers: seq<bool>, n: nat, ip: string, now: int, span: int)
    requires AnsweredSo(events, answers) && n <= |events|
    ensures var calls := CallsOf(events[..n], ip);
      CountAnswered(events, answers, n, ip, now, span) == CountRecent(Admissions(calls, |calls|), now, span)
  {
    hide Decide, Record, Admissions, CountRecent;
    if n == 0 {
      assert Admissions([], 0) == [] && CountRecent([], now, span) == 0 by { NothingCounts(now, span); }
    } else {
      AnsweredAreAdmissions(events, answers, n - 1, ip, now, span);
      assert events[..n][..n - 1] == events[..n - 1];
      var e, calls := events[n - 1], CallsOf(events[..n - 1], ip);
      assert answers[n - 1] == EventAdmitted(events, n - 1);
      if e.ip == ip {
        AdmissionsSnoc(calls, e.call);
        CountRecentSnoc(Admissions(calls, |calls|), e.call.now, now, span);
        assert Admissions(calls, |calls|) + [] == Admissions(calls, |calls|);
      }
    }
  }

  lemma NothingCounts(now: int, span: int)
    ensures Admissions([], 0) == [] && CountRecent([], now, span) == 0
  {
  }

  lemma WindowsOfCalls(events: seq<Event>, n: nat)
    requires n < |events| && OneWindow(events, n)
    ensures var calls := CallsOf(events[..n + 1], events[n].ip);
      && |calls| > 0 && calls[|calls| - 1] == events[n].call
      && calls[..|calls| - 1] == CallsOf(events[..n], events[n].ip)
      && Monotone(calls) && forall i :: 0 <= i < |calls| ==> calls[i].window == events[n].call.window
  {
    var ip, upTo := events[n].ip, events[..n + 1];
    var calls := CallsOf(upTo, ip);
    assert upTo[..n] == events[..n];
    forall i, j | 0 <= i <= j < |calls|
      ensures calls[i].now <= calls[j].now && calls[i].window == events[n].call.window
    {
      var k := CallsAreEvents(upTo, ip, i);
      var l := CallsAreEvents(upTo, ip, j);
      if l < k {
        CallsGrow(upTo, ip, l, k);
      }
      assert upTo[k] == events[k] && upTo[l] == events[l];
    }
  }

  /**
    What callers see: with one window and a clock that does not run backwards, call n of the
    history of answers was admitted if and only if fewer than its maximum of all earlier calls
    from the same address were admitted less than window + 1 seconds before.
   */
  lemma AnswersCountHistory(events: seq<Event>, answers: seq<bool>, n: nat)
    requires AnsweredSo(events, answers) && n < |events| && OneWindow(events, n)
    ensures var Event(ip, c) := events[n];
      answers[n] <==>
      CountAnswered(events, answers, n, ip, c.now, (c.window + 1) * 1_000_000_000)
        < if c.max >= 0 then c.max else c.max + 0x1_0000_0000_0000_0000
  {
    hide Decide, Record, Admissions, CountRecent, Monotone, CountAnswered;
    var Event(ip, c) := events[n];
    var calls := CallsOf(events[..n + 1], ip);
    WindowsOfCalls(events, n);
    var m := |calls| - 1;
    PurgedRecordRefinesHistory(calls, m);
    AdmissionsOfPrefix(calls, m, m);
    AnsweredAreAdmissions(events, answers, n, ip, c.now, Span(c.window));
    assert answers[n] == EventAdmitted(events, n);
  }
}
