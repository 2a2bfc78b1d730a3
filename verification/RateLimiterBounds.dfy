/**
  What the rate limiter guarantees over whole runs: spacing of admissions, optimality of
  its greedy choice, and which bounds survive when call sites with different parameters
  share the record of one address.
 */
module RateLimiterBounds {
  import opened Clock
  import opened RateLimiting

  // ---------------------------------------------------------------------------------
  // Spans and spacing
  // ---------------------------------------------------------------------------------

  ghost predicate Sorted(times: seq<int>) {
    forall i, j :: 0 <= i <= j < |times| ==> times[i] <= times[j]
  }

  /** Number of times in the half-open interval of `span` ticks that starts at lo. */
  function CountIn(times: seq<int>, lo: int, span: int): nat {
    if times == [] then 0
    else CountIn(times[..|times| - 1], lo, span) + (if lo <= times[|times| - 1] < lo + span then 1 else 0)
  }

  /** No half-open interval of `span` ticks holds more than m of the times. */
  ghost predicate AtMostPerSpan(times: seq<int>, m: int, span: int) {
    forall lo :: CountIn(times, lo, span) <= m
  }

  /** Times m places apart are at least `span` ticks apart. */
  ghost predicate Spaced(times: seq<int>, m: nat, span: int) {
    forall k :: m <= k < |times| ==> times[k] - times[k - m] >= span
  }

  lemma {:induction false} CountWithoutPrefix(times: seq<int>, j: nat, lo: int, span: int)
    requires j <= |times| && forall i :: 0 <= i < j ==> times[i] < lo
    ensures CountIn(times, lo, span) <= |times| - j
  {
    if |times| > j {
      CountWithoutPrefix(times[..|times| - 1], j, lo, span);
    } else if times != [] {
      CountWithoutPrefix(times[..|times| - 1], j - 1, lo, span);
    }
  }

  lemma {:induction false} CountSuffix(times: seq<int>, j: nat, lo: int, span: int)
    requires j <= |times| && forall i :: j <= i < |times| ==> lo <= times[i] < lo + span
    ensures CountIn(times, lo, span) >= |times| - j
  {
    if |times| > j {
      CountSuffix(times[..|times| - 1], j, lo, span);
    }
  }

  lemma {:induction false} CountMonotone(times: seq<int>, n: nat, lo: int, span: int)
    requires n <= |times|
    ensures CountIn(times[..n], lo, span) <= CountIn(times, lo, span)
  {
    if n < |times| {
      assert times[..|times| - 1][..n] == times[..n];
      CountMonotone(times[..|times| - 1], n, lo, span);
    } else {
      assert times[..n] == times;
    }
  }

  lemma {:induction false} SpacedBoundsCount(times: seq<int>, m: nat, span: int, lo: int)
    requires Sorted(times) && Spaced(times, m, span)
    ensures CountIn(times, lo, span) <= m
  {
    if times != [] {
      var n := |times| - 1;
      SpacedBoundsCount(times[..n], m, span, lo);
      if lo <= times[n] < lo + span {
        if n >= m {
          assert times[n - m] < lo;
          CountWithoutPrefix(times, n - m + 1, lo, span);
        } else {
          CountWithoutPrefix(times, 0, lo, span);
        }
      }
    }
  }

  /** The two readings of "at most m per span" agree on sorted times. */
  lemma SpanBoundIsSpacing(times: seq<int>, m: nat, span: int)
    requires Sorted(times)
    ensures AtMostPerSpan(times, m, span) <==> Spaced(times, m, span)
  {
    if Spaced(times, m, span) {
      forall lo ensures CountIn(times, lo, span) <= m {
        SpacedBoundsCount(times, m, span, lo);
      }
    }
    if AtMostPerSpan(times, m, span) {
      forall k | m <= k < |times| ensures times[k] - times[k - m] >= span {
        if times[k] - times[k - m] < span {
          var lo := times[k - m];
          CountSuffix(times[..k + 1], k - m, lo, span);
          CountMonotone(times, k + 1, lo, span);
        }
      }
    }
  }

  /** Of a sorted history, the recent times are the last ones. */
  lemma {:induction false} RecentAreLast(times: seq<int>, now: int, span: int, m: nat)
    requires Sorted(times)
    ensures CountRecent(times, now, span) < m <==> m > 0 && (|times| < m || now - times[|times| - m] >= span)
  {
    if times != [] && m > 0 {
      var front := times[..|times| - 1];
      var last := times[|times| - 1];
      RecentAreLast(front, now, span, m - 1);
      if now - last >= span {
        RecentAreLast(front, now, span, 1);
      }
    }
  }

  // ---------------------------------------------------------------------------------
  // Shared records: any mixture of parameters
  // ---------------------------------------------------------------------------------

  /** Every call uses a window of at least w seconds and a maximum of at most m. */
  ghost predicate Within(calls: seq<Call>, w: int, m: int) {
    forall i :: 0 <= i < |calls| ==> calls[i].window >= w && AsSize(calls[i].max) <= m
  }

  ghost predicate WindowsAtLeast(calls: seq<Call>, w: int) {
    forall i :: 0 <= i < |calls| ==> calls[i].window >= w
  }

  lemma {:induction false} AdmissionsSorted(calls: seq<Call>, k: nat)
    requires k <= |calls| && Monotone(calls)
    ensures Sorted(Admissions(calls, k))
    ensures forall i :: 0 <= i < |Admissions(calls, k)| && 0 < k ==> Admissions(calls, k)[i] <= calls[k - 1].now
  {
    hide Decide;
    if k > 0 {
      AdmissionsSorted(calls, k - 1);
    }
  }

  /** Calls with larger windows never throw away what a smaller window still counts. */
  lemma {:induction false} RecentSurvive(calls: seq<Call>, k: nat, n: nat, w: int)
    requires k <= n < |calls| && Monotone(calls) && WindowsAtLeast(calls, w)
    ensures CountRecent(Admissions(calls, k), calls[n].now, Span(w)) <= |Survivors(calls, k, n + 1)|
  {
    if k > 0 {
      RecentSurvive(calls, k - 1, n, w);
      var a := Admissions(calls, k - 1);
      assert (a + [calls[k - 1].now])[..|a|] == a;
      forall j | k - 1 < j < n + 1
        ensures calls[n].now - calls[k - 1].now < Span(w) ==> !Stale(calls[k - 1].now, calls[j].now, calls[j].window)
      {
        StaleIsAge(calls[k - 1].now, calls[j].now, calls[j].window);
      }
    }
  }

  lemma {:induction false} AdmissionsSpaced(calls: seq<Call>, k: nat, w: int, m: nat)
    requires k <= |calls| && Monotone(calls) && Within(calls, w, m)
    ensures Spaced(Admissions(calls, k), m, Span(w))
  {
    hide Decide, Stale, Survivors, CountRecent, Record;
    if k > 0 {
      AdmissionsSpaced(calls, k - 1, w, m);
      if Admitted(calls, k - 1) {
        AnswerCountsSurvivors(calls, k - 1);
        RecentSurvive(calls, k - 1, k - 1, w);
        AdmissionsSorted(calls, k - 1);
        RecentAreLast(Admissions(calls, k - 1), calls[k - 1].now, Span(w), m);
      }
    }
  }

  /**
    Call sites with different parameters that share one record: no span shorter than the
    smallest window plus one second holds more admissions than the largest maximum.
   */
  lemma {:induction false} MixedSpanBound(calls: seq<Call>, w: int, m: nat)
    requires Monotone(calls) && Within(calls, w, m)
    ensures AtMostPerSpan(Admissions(calls, |calls|), m, Span(w))
  {
    AdmissionsSpaced(calls, |calls|, w, m);
    AdmissionsSorted(calls, |calls|);
    SpanBoundIsSpacing(Admissions(calls, |calls|), m, Span(w));
  }

  lemma {:induction false} PurgeShrinks(record: seq<int>, now: int, window: int)
    ensures |Purge(record, now, window)| <= |record|
  {
    if record != [] {
      PurgeShrinks(record[..|record| - 1], now, window);
    }
  }

  /** The vector kept for an address never grows beyond the largest maximum. */
  lemma {:induction false} RecordIsBounded(calls: seq<Call>, m: nat)
    requires forall i :: 0 <= i < |calls| ==> AsSize(calls[i].max) <= m
    ensures |Record(calls)| <= m
  {
    if calls != [] {
      var front := calls[..|calls| - 1];
      RecordIsBounded(front, m);
      PurgeShrinks(Record(front), calls[|calls| - 1].now, calls[|calls| - 1].window);
    }
  }

  // ---------------------------------------------------------------------------------
  // One call site: the greedy choice is optimal
  // ---------------------------------------------------------------------------------

  ghost predicate Uniform(calls: seq<Call>, m: CInt, w: CInt) {
    forall i :: 0 <= i < |calls| ==> calls[i].max == m && calls[i].window == w
  }

  /** The times of the calls that some other policy would have admitted. */
  function Select(calls: seq<Call>, chosen: seq<bool>, k: nat): seq<int>
    requires k <= |calls| == |chosen|
  {
    if k == 0 then []
    else if chosen[k - 1] then Select(calls, chosen, k - 1) + [calls[k - 1].now]
    else Select(calls, chosen, k - 1)
  }

  lemma {:induction false} SelectSorted(calls: seq<Call>, chosen: seq<bool>, k: nat)
    requires k <= |calls| == |chosen| && Monotone(calls)
    ensures Sorted(Select(calls, chosen, k))
    ensures forall i :: 0 <= i < |Select(calls, chosen, k)| && 0 < k ==> Select(calls, chosen, k)[i] <= calls[k - 1].now
  {
    if k > 0 {
      SelectSorted(calls, chosen, k - 1);
    }
  }

  lemma {:induction false} GreedyStaysAhead(calls: seq<Call>, chosen: seq<bool>, k: nat, m: CInt, w: CInt)
    requires k <= |calls| == |chosen| && Monotone(calls) && Uniform(calls, m, w)
    requires Spaced(Select(calls, chosen, |calls|), AsSize(m), Span(w))
    requires Select(calls, chosen, k) <= Select(calls, chosen, |calls|)
    requires AsSize(m) > 0 || w >= 0
    ensures |Select(calls, chosen, k)| <= |Admissions(calls, k)|
    ensures forall i :: 0 <= i < |Select(calls, chosen, k)| ==> Admissions(calls, k)[i] <= Select(calls, chosen, k)[i]
  {
    hide Decide;
    if k > 0 {
      GreedyStaysAhead(calls, chosen, k - 1, m, w);
      AdmissionsSorted(calls, k - 1);
      var a, s := Admissions(calls, k - 1), Select(calls, chosen, k - 1);
      if chosen[k - 1] && |a| == |s| {
        var all := Select(calls, chosen, |calls|);
        assert all[|s|] == calls[k - 1].now;
        PurgedRecordRefinesHistory(calls, k - 1);
        RecentAreLast(a, calls[k - 1].now, Span(w), AsSize(m));
        if |s| >= AsSize(m) {
          assert all[|s|] - all[|s| - AsSize(m)] >= Span(w);
        }
      }
    }
  }

  lemma {:induction false} SelectGrows(calls: seq<Call>, chosen: seq<bool>, k: nat, n: nat)
    requires k <= n <= |calls| == |chosen|
    ensures Select(calls, chosen, k) <= Select(calls, chosen, n)
  {
    if k < n {
      SelectGrows(calls, chosen, k, n - 1);
    }
  }

  /**
    For one parameter pair, among all ways to admit some of the calls without ever having
    more than max in a span shorter than window + 1 seconds, the limiter admits at least
    as many on every prefix of the run, and its i-th admission is never the later one.
   */
  lemma GreedyIsOptimal(calls: seq<Call>, chosen: seq<bool>, k: nat, m: CInt, w: CInt)
    requires k <= |calls| == |chosen| && Monotone(calls) && Uniform(calls, m, w)
    requires AtMostPerSpan(Select(calls, chosen, |calls|), AsSize(m), Span(w))
    requires AsSize(m) > 0 || w >= 0
    ensures |Select(calls, chosen, k)| <= |Admissions(calls, k)|
    ensures forall i :: 0 <= i < |Select(calls, chosen, k)| ==> Admissions(calls, k)[i] <= Select(calls, chosen, k)[i]
  {
    SelectSorted(calls, chosen, |calls|);
    SpanBoundIsSpacing(Select(calls, chosen, |calls|), AsSize(m), Span(w));
    SelectGrows(calls, chosen, k, |calls|);
    GreedyStaysAhead(calls, chosen, k, m, w);
  }

  /**
    The last requirement shuts out one family: with a maximum of 0 and a negative window the
    spans are empty, so admitting every call is feasible, but the limiter admits none.
   */
  lemma EmptySpansDefeatGreedy(calls: seq<Call>, w: CInt)
    requires Uniform(calls, 0, w) && w < 0
    ensures var all := seq(|calls|, i => true);
      && AtMostPerSpan(Select(calls, all, |calls|), 0, Span(w))
      && |Select(calls, all, |calls|)| == |calls| && Admissions(calls, |calls|) == []
  {
    var all := seq(|calls|, i => true);
    forall lo ensures CountIn(Select(calls, all, |calls|), lo, Span(w)) == 0 {
      EmptySpanCountsNone(Select(calls, all, |calls|), lo, Span(w));
    }
    SelectAll(calls, all, |calls|);
    NoneAdmitted(calls, |calls|);
  }

  lemma {:induction false} SelectAll(calls: seq<Call>, all: seq<bool>, k: nat)
    requires k <= |calls| == |all| && forall i :: 0 <= i < |all| ==> all[i]
    ensures |Select(calls, all, k)| == k
  {
    if k > 0 {
      SelectAll(calls, all, k - 1);
    }
  }

  lemma {:induction false} NoneAdmitted(calls: seq<Call>, k: nat)
    requires k <= |calls| && forall i :: 0 <= i < |calls| ==> calls[i].max == 0
    ensures Admissions(calls, k) == []
  {
    hide Purge, Record;
    if k > 0 {
      NoneAdmitted(calls, k - 1);
    }
  }

  lemma {:induction false} EmptySpanCountsNone(times: seq<int>, lo: int, span: int)
    requires span <= 0
    ensures CountIn(times, lo, span) == 0
  {
    if times != [] {
      EmptySpanCountsNone(times[..|times| - 1], lo, span);
    }
  }

  /** The limiter's own choice is one of those ways. */
  lemma {:induction false} GreedyIsFeasible(calls: seq<Call>, m: CInt, w: CInt)
    requires Monotone(calls) && Uniform(calls, m, w)
    ensures AtMostPerSpan(Admissions(calls, |calls|), AsSize(m), Span(w))
  {
    MixedSpanBound(calls, w, AsSize(m));
  }

  // ---------------------------------------------------------------------------------
  // When a call site keeps its own bound on a shared record
  // ---------------------------------------------------------------------------------

  type Pair = (CInt, CInt)

  ghost predicate From(calls: seq<Call>, sites: set<Pair>) {
    forall i :: 0 <= i < |calls| ==> (calls[i].max, calls[i].window) in sites
  }

  /** Admission times of the calls made with one parameter pair. */
  ghost function SiteAdmissions(calls: seq<Call>, k: nat, m: CInt, w: CInt): seq<int>
    requires k <= |calls|
  {
    if k == 0 then []
    else if Admitted(calls, k - 1) && calls[k - 1].max == m && calls[k - 1].window == w then
      SiteAdmissions(calls, k - 1, m, w) + [calls[k - 1].now]
    else SiteAdmissions(calls, k - 1, m, w)
  }

  /** "At most m of these calls per w seconds", for every run; m is compared as a size_t. */
  ghost predicate SiteBound(sites: set<Pair>, m: CInt, w: CInt) {
    forall calls :: Monotone(calls) && From(calls, sites) ==>
      AtMostPerSpan(SiteAdmissions(calls, |calls|, m, w), AsSize(m), Span(w))
  }

  lemma {:induction false} SiteAdmissionsSorted(calls: seq<Call>, k: nat, m: CInt, w: CInt)
    requires k <= |calls| && Monotone(calls)
    ensures Sorted(SiteAdmissions(calls, k, m, w))
    ensures forall i :: 0 <= i < |SiteAdmissions(calls, k, m, w)| && 0 < k ==>
        SiteAdmissions(calls, k, m, w)[i] <= calls[k - 1].now
  {
    hide Decide;
    if k > 0 {
      SiteAdmissionsSorted(calls, k - 1, m, w);
    }
  }

  lemma {:induction false} SiteAdmissionsAreAdmissions(calls: seq<Call>, k: nat, m: CInt, w: CInt, now: int, span: int)
    requires k <= |calls|
    ensures CountRecent(SiteAdmissions(calls, k, m, w), now, span) <= CountRecent(Admissions(calls, k), now, span)
  {
    if k > 0 {
      SiteAdmissionsAreAdmissions(calls, k - 1, m, w, now, span);
      var a, s := Admissions(calls, k - 1), SiteAdmissions(calls, k - 1, m, w);
      assert (a + [calls[k - 1].now])[..|a|] == a && (s + [calls[k - 1].now])[..|s|] == s;
    }
  }

  lemma {:induction false} SiteSpaced(calls: seq<Call>, k: nat, m: CInt, w: CInt)
    requires k <= |calls| && Monotone(calls) && WindowsAtLeast(calls, w)
    ensures Spaced(SiteAdmissions(calls, k, m, w), AsSize(m), Span(w))
  {
    hide Decide, Stale, Survivors, Admissions, CountRecent, Record;
    if k > 0 {
      SiteSpaced(calls, k - 1, m, w);
      if Admitted(calls, k - 1) && calls[k - 1].max == m && calls[k - 1].window == w {
        AnswerCountsSurvivors(calls, k - 1);
        RecentSurvive(calls, k - 1, k - 1, w);
        SiteAdmissionsSorted(calls, k - 1, m, w);
        SiteAdmissionsAreAdmissions(calls, k - 1, m, w, calls[k - 1].now, Span(w));
        RecentAreLast(SiteAdmissions(calls, k - 1, m, w), calls[k - 1].now, Span(w), AsSize(m));
      }
    }
  }

  // A maximum of one survives shorter windows: the call that purges an admission takes its
  // place in the record, unless it is never admitted.

  /** No call with a window below w that can never be admitted. */
  ghost predicate LeavesNoGap(calls: seq<Call>, w: int) {
    forall i :: 0 <= i < |calls| ==> calls[i].window >= w || calls[i].max != 0
  }

  lemma {:induction false} PurgeMember(record: seq<int>, time: int, now: int, window: int)
    ensures time in Purge(record, now, window) <==> time in record && !Stale(time, now, window)
  {
    if record != [] {
      PurgeMember(record[..|record| - 1], time, now, window);
      assert record == record[..|record| - 1] + [record[|record| - 1]];
    }
  }

  /** One call: while an entry is younger than w + 1 seconds the record keeps one no older. */
  lemma DecideKeepsYoung(record: seq<int>, c: Call, time: int, since: int, w: int)
    requires time in record && since <= time && (forall x :: x in record ==> x <= c.now)
    requires c.now - since < Span(w) && (c.window >= w || c.max != 0)
    ensures exists x :: x in Decide(record, c).0 && since <= x
  {
    hide Stale, Purge;
    var kept := Purge(record, c.now, c.window);
    PurgeMember(record, time, c.now, c.window);
    StaleIsAge(time, c.now, c.window);
    if time !in kept {
      if kept == [] {
        assert c.now in Decide(record, c).0;
      } else {
        assert kept[0] in kept;
        PurgeMember(record, kept[0], c.now, c.window);
        StaleIsAge(kept[0], c.now, c.window);
        assert kept[0] in Decide(record, c).0;
      }
    } else {
      assert time in Decide(record, c).0;
    }
  }

  lemma {:induction false} RecordIsPast(calls: seq<Call>, n: nat, now: int)
    requires n <= |calls| && forall i :: 0 <= i < n ==> calls[i].now <= now
    ensures forall x :: x in Record(calls[..n]) ==> x <= now
  {
    hide Stale, Purge;
    if n > 0 {
      RecordIsPast(calls, n - 1, now);
      RecordStep(calls, n - 1);
      var c, record := calls[n - 1], Record(calls[..n - 1]);
      forall x | x in Decide(record, c).0 ensures x <= now {
        PurgeMember(record, x, c.now, c.window);
      }
    }
  }

  lemma {:induction false} RecordKeepsYoung(calls: seq<Call>, i: nat, n: nat, w: int)
    requires i < n <= |calls| && Monotone(calls) && LeavesNoGap(calls, w)
    requires Admitted(calls, i) && calls[n - 1].now - calls[i].now < Span(w)
    ensures exists x :: x in Record(calls[..n]) && calls[i].now <= x
  {
    hide Purge, Record;
    var c, record := calls[n - 1], Record(calls[..n - 1]);
    RecordStep(calls, n - 1);
    if i == n - 1 {
      assert c.now in Decide(record, c).0;
    } else {
      RecordKeepsYoung(calls, i, n - 1, w);
      var x :| x in record && calls[i].now <= x;
      RecordIsPast(calls, n - 1, c.now);
      DecideKeepsYoung(record, c, x, calls[i].now, w);
    }
  }

  lemma AdmittedAlone(calls: seq<Call>, i: nat, n: nat)
    requires i < n < |calls| && Monotone(calls) && LeavesNoGap(calls, calls[n].window)
    requires Admitted(calls, i) && Admitted(calls, n) && AsSize(calls[n].max) == 1
    ensures calls[n].now - calls[i].now >= Span(calls[n].window)
  {
    hide Purge, Record, Stale;
    var c, record := calls[n], Record(calls[..n]);
    if c.now - calls[i].now < Span(c.window) {
      RecordKeepsYoung(calls, i, n, c.window);
      var x :| x in record && calls[i].now <= x;
      RecordIsPast(calls, n, c.now);
      StaleIsAge(x, c.now, c.window);
      PurgeMember(record, x, c.now, c.window);
    }
  }

  lemma {:induction false} LastSiteAdmission(calls: seq<Call>, k: nat, m: CInt, w: CInt) returns (i: nat)
    requires k <= |calls| && SiteAdmissions(calls, k, m, w) != []
    ensures i < k && Admitted(calls, i)
    ensures var times := SiteAdmissions(calls, k, m, w); times[|times| - 1] == calls[i].now
  {
    if Admitted(calls, k - 1) && calls[k - 1].max == m && calls[k - 1].window == w {
      i := k - 1;
    } else {
      i := LastSiteAdmission(calls, k - 1, m, w);
    }
  }

  lemma {:induction false} SingleSpaced(calls: seq<Call>, k: nat, m: CInt, w: CInt)
    requires k <= |calls| && Monotone(calls) && LeavesNoGap(calls, w) && AsSize(m) == 1
    ensures Spaced(SiteAdmissions(calls, k, m, w), 1, Span(w))
  {
    hide Admitted;
    if k > 0 {
      SingleSpaced(calls, k - 1, m, w);
      if Admitted(calls, k - 1) && calls[k - 1].max == m && calls[k - 1].window == w {
        if SiteAdmissions(calls, k - 1, m, w) != [] {
          var i := LastSiteAdmission(calls, k - 1, m, w);
          AdmittedAlone(calls, i, k - 1);
        }
      }
    }
  }

  lemma {:induction false} NoSiteAdmissions(calls: seq<Call>, k: nat, m: CInt, w: CInt)
    requires k <= |calls| &&
        (AsSize(m) == 0 || forall i :: 0 <= i < |calls| ==> (calls[i].max, calls[i].window) != (m, w))
    ensures SiteAdmissions(calls, k, m, w) == []
  {
    hide Purge, Record;
    if k > 0 {
      NoSiteAdmissions(calls, k - 1, m, w);
    }
  }

  function Zeros(k: nat): (r: seq<int>)
    ensures |r| == k && forall i :: 0 <= i < k ==> r[i] == 0
  {
    if k == 0 then [] else Zeros(k - 1) + [0]
  }

  /** When a window has just expired for an admission at time 0. */
  function Expiry(window: int): int {
    if window < 0 then 0 else Span(window)
  }

  /** As many calls as are admitted at time 0, then one with the shorter window, then one more. */
  ghost function Starvation(m: CInt, w: CInt, other: Pair): seq<Call> {
    var t := Expiry(other.1);
    seq(AsSize(m), i => Call(0, m, w)) + [Call(t, other.0, other.1), Call(t, m, w)]
  }

  lemma RecordStep(calls: seq<Call>, k: nat)
    requires k < |calls|
    ensures Record(calls[..k + 1]) == Decide(Record(calls[..k]), calls[k]).0
  {
    assert calls[..k + 1][..k] == calls[..k];
  }

  lemma {:induction false} ZerosKept(k: nat, w: int)
    requires w >= 0
    ensures Purge(Zeros(k), 0, w) == Zeros(k)
  {
    if k > 0 {
      ZerosKept(k - 1, w);
      PurgeAppend(Zeros(k - 1), 0, 0, w);
    }
  }

  lemma {:induction false} ZerosExpire(k: nat, t: int, window: int)
    requires t == Expiry(window)
    ensures Purge(Zeros(k), t, window) == []
  {
    if k > 0 {
      ZerosExpire(k - 1, t, window);
      PurgeAppend(Zeros(k - 1), 0, t, window);
      StaleIsAge(0, t, window);
    }
  }

  lemma BurstCall(k: nat, m: CInt, w: CInt)
    requires k < AsSize(m) && w >= 0
    ensures Decide(Zeros(k), Call(0, m, w)) == (Zeros(k + 1), true)
  {
    ZerosKept(k, w);
  }

  lemma {:induction false} Burst(calls: seq<Call>, k: nat, m: CInt, w: CInt)
    requires k <= AsSize(m) && k <= |calls| && w >= 0
    requires forall i :: 0 <= i < k ==> calls[i] == Call(0, m, w)
    ensures Record(calls[..k]) == Zeros(k) == SiteAdmissions(calls, k, m, w)
  {
    hide Purge, AsSize, Decide;
    if k > 0 {
      Burst(calls, k - 1, m, w);
      RecordStep(calls, k - 1);
      BurstCall(k - 1, m, w);
    }
  }

  /** What a call that finds every entry stale leaves in the record. */
  function Leaves(p: Pair): nat {
    if p.0 == 0 then 0 else 1
  }

  lemma RecordAfterShortWindow(calls: seq<Call>, n: nat, other: Pair)
    requires n < |calls| && Record(calls[..n]) == Zeros(n) && calls[n] == Call(Expiry(other.1), other.0, other.1)
    ensures |Record(calls[..n + 1])| == Leaves(other)
  {
    RecordStep(calls, n);
    ZerosExpire(n, calls[n].now, other.1);
  }

  lemma LastCallIsAdmitted(record: seq<int>, c: Call)
    requires |record| < AsSize(c.max)
    ensures Decide(record, c).1
  {
    PurgeShrinks(record, c.now, c.window);
  }

  lemma StarvationAdmissions(calls: seq<Call>, n: nat, m: CInt, w: CInt)
    requires n == AsSize(m) && |calls| == n + 2 && calls[n].window != w
    requires SiteAdmissions(calls, n, m, w) == Zeros(n)
    requires |Record(calls[..n + 1])| < n && calls[n + 1].max == m && calls[n + 1].window == w
    ensures SiteAdmissions(calls, n + 2, m, w) == Zeros(n) + [calls[n + 1].now]
  {
    hide AsSize, Decide, Record;
    LastCallIsAdmitted(Record(calls[..n + 1]), calls[n + 1]);
    assert Admitted(calls, n + 1);
    assert SiteAdmissions(calls, n + 1, m, w) == Zeros(n);
  }

  lemma OneTooMany(n: nat, t: int, span: int)
    requires 0 <= t < span
    ensures !AtMostPerSpan(Zeros(n) + [t], n, span)
  {
    CountSuffix(Zeros(n) + [t], 0, 0, span);
    assert CountIn(Zeros(n) + [t], 0, span) > n;
  }

  /** A call site p makes the limiter forget calls that (m, w) still has to count. */
  predicate Starves(p: Pair, m: CInt, w: CInt) {
    p.1 < w && Leaves(p) < AsSize(m)
  }

  lemma StarvationBreaksBound(m: CInt, w: CInt, other: Pair)
    requires 0 <= w && Starves(other, m, w)
    ensures var calls := Starvation(m, w, other);
            !AtMostPerSpan(SiteAdmissions(calls, |calls|, m, w), AsSize(m), Span(w))
  {
    hide AsSize, Record, Decide, SiteAdmissions, AtMostPerSpan;
    var calls, n := Starvation(m, w, other), AsSize(m);
    assert calls[n] == Call(Expiry(other.1), other.0, other.1) && calls[n + 1] == Call(Expiry(other.1), m, w);
    Burst(calls, n, m, w);
    RecordAfterShortWindow(calls, n, other);
    StarvationAdmissions(calls, n, m, w);
    OneTooMany(n, Expiry(other.1), Span(w));
  }

  lemma StarvationBreaksSite(sites: set<Pair>, m: CInt, w: CInt, other: Pair)
    requires (m, w) in sites && 0 <= w && other in sites && Starves(other, m, w)
    ensures !SiteBound(sites, m, w)
  {
    hide AsSize, SiteAdmissions, AtMostPerSpan, Starves;
    StarvationBreaksBound(m, w, other);
    var calls := Starvation(m, w, other);
    assert Monotone(calls) && From(calls, sites);
  }

  /** One run in which nothing starves the call site. */
  lemma UnstarvedIsBounded(calls: seq<Call>, sites: set<Pair>, m: CInt, w: CInt)
    requires Monotone(calls) && From(calls, sites) && 0 <= w && forall p :: p in sites ==> !Starves(p, m, w)
    ensures AtMostPerSpan(SiteAdmissions(calls, |calls|, m, w), AsSize(m), Span(w))
  {
    hide SiteAdmissions, AtMostPerSpan, Spaced, Sorted;
    assert forall i :: 0 <= i < |calls| ==> !Starves((calls[i].max, calls[i].window), m, w);
    if AsSize(m) == 0 {
      NoSiteAdmissions(calls, |calls|, m, w);
      NothingIsBounded(AsSize(m), Span(w));
    } else {
      if AsSize(m) == 1 {
        SingleSpaced(calls, |calls|, m, w);
      } else {
        SiteSpaced(calls, |calls|, m, w);
      }
      SiteAdmissionsSorted(calls, |calls|, m, w);
      SpanBoundIsSpacing(SiteAdmissions(calls, |calls|, m, w), AsSize(m), Span(w));
    }
  }

  lemma NothingIsBounded(m: nat, span: int)
    ensures AtMostPerSpan([], m, span)
  {
  }

  /**
    A call site keeps its own bound on the shared record in all runs if and only if no call
    site has a shorter window and leaves fewer entries than the maximum when it finds none;
    or it has no effect, or its window is negative.
   */
  lemma SiteBoundIff(sites: set<Pair>, m: CInt, w: CInt)
    ensures SiteBound(sites, m, w) <==> (m, w) !in sites || w < 0 || forall p :: p in sites ==> !Starves(p, m, w)
  {
    hide AsSize, SiteAdmissions, Starves;
    if (m, w) !in sites || w < 0 || forall p :: p in sites ==> !Starves(p, m, w) {
      forall calls | Monotone(calls) && From(calls, sites)
        ensures AtMostPerSpan(SiteAdmissions(calls, |calls|, m, w), AsSize(m), Span(w))
      {
        if (m, w) !in sites {
          NoSiteAdmissions(calls, |calls|, m, w);
          NothingIsBounded(AsSize(m), Span(w));
        } else if w < 0 {
          forall lo ensures CountIn(SiteAdmissions(calls, |calls|, m, w), lo, Span(w)) == 0 {
            EmptySpanCountsNone(SiteAdmissions(calls, |calls|, m, w), lo, Span(w));
          }
        } else {
          UnstarvedIsBounded(calls, sites, m, w);
        }
      }
    } else {
      var other :| other in sites && Starves(other, m, w);
      StarvationBreaksSite(sites, m, w, other);
    }
  }

  /** From two admissions on, that is the case exactly when no call site has a shorter window. */
  lemma SiteBoundIffShortestWindow(sites: set<Pair>, m: CInt, w: CInt)
    requires (m, w) in sites && 2 <= AsSize(m) && 0 <= w
    ensures SiteBound(sites, m, w) <==> forall p :: p in sites ==> p.1 >= w
  {
    hide SiteBound;
    SiteBoundIff(sites, m, w);
    assert forall p :: p in sites ==> (Starves(p, m, w) <==> p.1 < w);
  }

  // Login and second factor use (5, 60); the password-reset request uses (3, 300).
  const CALL_SITES: set<Pair> := {(5, 60), (3, 300)}

  /** At the repository's call sites logins keep their bound and reset requests do not. */
  lemma RepositoryCallSites()
    ensures SiteBound(CALL_SITES, 5, 60)
    ensures !SiteBound(CALL_SITES, 3, 300)
  {
    SiteBoundIffShortestWindow(CALL_SITES, 5, 60);
    SiteBoundIffShortestWindow(CALL_SITES, 3, 300);
    assert (5, 60) in CALL_SITES;
  }

  /** All of them together: five admissions per address in any span under 61 seconds. */
  lemma RepositorySpanBound(calls: seq<Call>)
    requires Monotone(calls) && From(calls, CALL_SITES)
    ensures AtMostPerSpan(Admissions(calls, |calls|), 5, 61 * SECOND) && |Record(calls)| <= 5
  {
    forall i | 0 <= i < |calls| ensures calls[i].window >= 60 && AsSize(calls[i].max) <= 5 {
      assert (calls[i].max, calls[i].window) in CALL_SITES;
    }
    MixedSpanBound(calls, 60, 5);
    RecordIsBounded(calls, 5);
  }
}
