/** Sliding-window anomaly detection (engine/security/intrusion_detector.go), with time as whole seconds.
    The lists keep only recent timestamps; ghost fields keep every one ever recorded. */
module IntrusionDetector {
  import opened Sums

  const WINDOW := 300
  const AUTH_FAIL_THRESHOLD := 3
  const READ_RATE_THRESHOLD := 50
  const HISTORY_MAX := 100

  datatype Kind = RapidAuthFailures | RapidEntryAccess
  datatype Severity = Medium | High
  datatype Anomaly = Anomaly(kind: Kind, subject: string, count: nat, at: int, severity: Severity)

  type Times = map<string, seq<int>>

  function Get(m: Times, s: string): seq<int> {
    if s in m then m[s] else []
  }

  // ---------------------------------------------------------------- windows

  predicate Sorted(ts: seq<int>) {
    |ts| < 2 || (Sorted(ts[..|ts| - 1]) && ts[|ts| - 2] <= ts[|ts| - 1])
  }

  /** The timestamps at or after cutoff. */
  function InWindow(ts: seq<int>, cutoff: int): (r: seq<int>) {
    if ts == [] then []
    else
      var rest := InWindow(ts[..|ts| - 1], cutoff);
      if ts[|ts| - 1] >= cutoff then rest + [ts[|ts| - 1]] else rest
  }

  /** The first k elements of a sorted list lie before cutoff. */
  predicate OldPrefix(ts: seq<int>, k: nat, cutoff: int) {
    k <= |ts| && (k == 0 || ts[k - 1] < cutoff)
  }

  lemma {:induction false} WindowIgnoresOld(ts: seq<int>, k: nat, cutoff: int)
    requires Sorted(ts) && OldPrefix(ts, k, cutoff)
    ensures InWindow(ts, cutoff) == InWindow(ts[k..], cutoff)
  {
    if ts != [] {
      var n := |ts| - 1;
      if k == |ts| {
        WindowIgnoresOld(ts[..n], n, cutoff);
        assert ts[..n][n..] == [] && ts[k..] == [];
      } else {
        WindowIgnoresOld(ts[..n], k, cutoff);
        assert ts[k..][..n - k] == ts[..n][k..];
      }
    }
  }

  /** A sorted list that starts in the window lies in it. */
  lemma {:induction false} RecentFromFirst(ts: seq<int>, cutoff: int)
    requires Sorted(ts) && (ts == [] || ts[0] >= cutoff)
    ensures InWindow(ts, cutoff) == ts
    ensures ts == [] || ts[|ts| - 1] >= cutoff
  {
    if |ts| == 1 {
      assert ts[..0] == [];
    } else if |ts| > 1 {
      RecentFromFirst(ts[..|ts| - 1], cutoff);
    }
  }

  lemma {:induction false} SortedSuffix(ts: seq<int>, k: nat)
    requires Sorted(ts) && k <= |ts|
    ensures Sorted(ts[k..])
  {
    if k + 1 < |ts| {
      SortedSuffix(ts[..|ts| - 1], k);
      assert ts[k..][..|ts| - k - 1] == ts[..|ts| - 1][k..];
    }
  }

  lemma {:induction false} WindowNoLonger(ts: seq<int>, cutoff: int)
    ensures |InWindow(ts, cutoff)| <= |ts|
  {
    if ts != [] {
      WindowNoLonger(ts[..|ts| - 1], cutoff);
    }
  }

  /** go: pruneWindow. Cut before the first timestamp in the window; on a sorted list, that is filtering. */
  method PruneWindow(timestamps: seq<int>, now: int) returns (kept: seq<int>, ghost dropped: nat)
    ensures OldPrefix(timestamps, dropped, now - WINDOW) && kept == timestamps[dropped..]
    ensures forall i | 0 <= i < dropped :: timestamps[i] < now - WINDOW
    ensures kept == [] || kept[0] >= now - WINDOW
    ensures Sorted(timestamps) ==> kept == InWindow(timestamps, now - WINDOW)
  {
    var cutoff := now - WINDOW;
    var i := 0;
    while i < |timestamps| && timestamps[i] < cutoff
      invariant 0 <= i <= |timestamps|
      invariant forall j | 0 <= j < i :: timestamps[j] < cutoff
    {
      i := i + 1;
    }
    if Sorted(timestamps) {
      WindowIgnoresOld(timestamps, i, cutoff);
      SortedSuffix(timestamps, i);
      RecentFromFirst(timestamps[i..], cutoff);
    }
    return timestamps[i..], i;
  }

  /** The stored list is everything recorded, less a prefix that is out of the window for good. */
  predicate Keeps(stored: seq<int>, all: seq<int>, clock: int) {
    && Sorted(all) && (all == [] || all[|all| - 1] <= clock)
    && |stored| <= |all| && stored == all[|all| - |stored|..]
    && OldPrefix(all, |all| - |stored|, clock - WINDOW)
  }

  lemma KeepsLater(stored: seq<int>, all: seq<int>, clock: int, now: int)
    requires Keeps(stored, all, clock) && clock <= now
    ensures Keeps(stored, all, now)
  {
  }

  predicate KeepsAt(stored: Times, all: Times, clock: int, s: string) {
    Keeps(Get(stored, s), Get(all, s), clock)
  }

  ghost predicate KeepsAll(stored: Times, all: Times, clock: int) {
    stored.Keys == all.Keys && forall s :: KeepsAt(stored, all, clock, s)
  }

  lemma KeepsAllLater(stored: Times, all: Times, clock: int, now: int)
    requires KeepsAll(stored, all, clock) && clock <= now
    ensures KeepsAll(stored, all, now)
  {
    forall s ensures KeepsAt(stored, all, now, s) {
      KeepsOne(stored, all, clock, s);
      KeepsLater(Get(stored, s), Get(all, s), clock, now);
    }
  }

  lemma KeepsSameWindow(stored: seq<int>, all: seq<int>, clock: int)
    requires Keeps(stored, all, clock)
    ensures InWindow(stored, clock - WINDOW) == InWindow(all, clock - WINDOW)
    ensures Sorted(stored)
  {
    WindowIgnoresOld(all, |all| - |stored|, clock - WINDOW);
    SortedSuffix(all, |all| - |stored|);
  }

  lemma DroppingKeeps(stored: seq<int>, all: seq<int>, clock: int, dropped: nat)
    requires Keeps(stored, all, clock) && OldPrefix(stored, dropped, clock - WINDOW)
    ensures Keeps(stored[dropped..], all, clock)
  {
    var k := |all| - |stored|;
    assert dropped > 0 ==> stored[dropped - 1] == all[k + dropped - 1];
    assert stored[dropped..] == all[k + dropped..];
  }

  lemma AppendingKeeps(stored: seq<int>, all: seq<int>, clock: int)
    requires Keeps(stored, all, clock)
    ensures Keeps(stored + [clock], all + [clock], clock)
    ensures InWindow(all + [clock], clock - WINDOW) == InWindow(all, clock - WINDOW) + [clock]
  {
    assert (all + [clock])[..|all|] == all;
    assert stored + [clock] == (all + [clock])[|all| - |stored|..];
  }

  /** Cutting the old prefix and appending the clock leaves exactly the window of everything recorded. */
  lemma RecordedList(stored: seq<int>, all: seq<int>, clock: int, now: int, kept: seq<int>, dropped: nat)
    requires Keeps(stored, all, clock) && clock <= now
    requires OldPrefix(stored, dropped, now - WINDOW) && kept == stored[dropped..]
    requires Sorted(stored) ==> kept == InWindow(stored, now - WINDOW)
    ensures Keeps(kept + [now], all + [now], now)
    ensures kept + [now] == InWindow(all + [now], now - WINDOW)
  {
    KeepsLater(stored, all, clock, now);
    KeepsSameWindow(stored, all, now);
    DroppingKeeps(stored, all, now, dropped);
    AppendingKeeps(kept, all, now);
  }

  lemma KeepsOne(stored: Times, all: Times, clock: int, s: string)
    requires KeepsAll(stored, all, clock)
    ensures Keeps(Get(stored, s), Get(all, s), clock)
  {
    assert KeepsAt(stored, all, clock, s);
  }

  lemma KeepsAllUpdate(stored: Times, all: Times, clock: int, now: int, subject: string, list: seq<int>, whole: seq<int>)
    requires KeepsAll(stored, all, clock) && clock <= now && Keeps(list, whole, now)
    ensures KeepsAll(stored[subject := list], all[subject := whole], now)
  {
    var r, everything := stored[subject := list], all[subject := whole];
    forall s ensures KeepsAt(r, everything, now, s) {
      KeepsOne(stored, all, clock, s);
      KeepsLater(Get(stored, s), Get(all, s), clock, now);
    }
  }

  /** The first lines of every Record method: prune the subject's list, append the clock. The list is then exactly
      the window of everything recorded for the subject; other subjects' lists are left as they are. */
  method Record(stored: Times, subject: string, now: int, ghost all: Times, ghost clock: int) returns (r: Times)
    requires KeepsAll(stored, all, clock) && clock <= now
    ensures KeepsAll(r, all[subject := Get(all, subject) + [now]], now)
    ensures r == stored[subject := InWindow(Get(all, subject) + [now], now - WINDOW)]
  {
    hide KeepsAll, Keeps, OldPrefix, InWindow, Sorted;
    KeepsOne(stored, all, clock, subject);
    var kept, dropped := PruneWindow(Get(stored, subject), now);
    RecordedList(Get(stored, subject), Get(all, subject), clock, now, kept, dropped);
    KeepsAllUpdate(stored, all, clock, now, subject, kept + [now], Get(all, subject) + [now]);
    r := stored[subject := kept];
    r := r[subject := r[subject] + [now]];
    assert r == stored[subject := kept + [now]];
  }

  // ---------------------------------------------------------------- all subjects together

  ghost function Lengths(m: Times): string -> nat { s => |Get(m, s)| }

  ghost function WindowLengths(m: Times, cutoff: int): string -> nat { s => |InWindow(Get(m, s), cutoff)| }

  /** Timestamps still stored though out of the window. */
  ghost function StaleLengths(m: Times, cutoff: int): string -> nat {
    s => if |Get(m, s)| >= |InWindow(Get(m, s), cutoff)| then |Get(m, s)| - |InWindow(Get(m, s), cutoff)| else 0
  }

  ghost function Stored(m: Times): nat { SumOver(m.Keys, Lengths(m)) }

  ghost function TrueCount(all: Times, cutoff: int): nat { SumOver(all.Keys, WindowLengths(all, cutoff)) }

  ghost function Stale(m: Times, cutoff: int): nat { SumOver(m.Keys, StaleLengths(m, cutoff)) }

  /** What is stored is what is in the window, plus what pruning has not reached yet. */
  lemma StoredIsTruePlusStale(stored: Times, all: Times, now: int)
    requires KeepsAll(stored, all, now)
    ensures Stored(stored) == TrueCount(all, now - WINDOW) + Stale(stored, now - WINDOW)
  {
    var cutoff := now - WINDOW;
    forall s | s in stored.Keys
      ensures Lengths(stored)(s) == WindowLengths(all, cutoff)(s) + StaleLengths(stored, cutoff)(s)
    {
      KeepsOne(stored, all, now, s);
      KeepsSameWindow(Get(stored, s), Get(all, s), now);
      WindowNoLonger(Get(stored, s), cutoff);
    }
    SumAdd(stored.Keys, WindowLengths(all, cutoff), StaleLengths(stored, cutoff), Lengths(stored));
  }

  method TotalLength(m: Times) returns (total: nat)
    ensures total == Stored(m)
  {
    total := 0;
    var remaining := m.Keys;
    while remaining != {}
      invariant remaining <= m.Keys
      invariant total + SumOver(remaining, Lengths(m)) == Stored(m)
      decreases |remaining|
    {
      var s :| s in remaining;
      SumExtract(remaining, Lengths(m), s);
      total := total + |m[s]|;
      remaining := remaining - {s};
    }
  }

  predicate AllRecent(ts: seq<int>, cutoff: int) { forall i | 0 <= i < |ts| :: ts[i] >= cutoff }

  lemma {:induction false} WholeWindow(ts: seq<int>, cutoff: int)
    ensures |InWindow(ts, cutoff)| == |ts| <==> AllRecent(ts, cutoff)
  {
    if ts != [] {
      WholeWindow(ts[..|ts| - 1], cutoff);
      WindowNoLonger(ts[..|ts| - 1], cutoff);
    }
  }

  lemma {:induction false} WindowIsRecent(ts: seq<int>, cutoff: int)
    ensures AllRecent(InWindow(ts, cutoff), cutoff)
  {
    if ts != [] {
      WindowIsRecent(ts[..|ts| - 1], cutoff);
    }
  }

  lemma {:induction false} SumZero(s: set<string>, f: string -> nat)
    ensures SumOver(s, f) == 0 <==> forall k | k in s :: f(k) == 0
    decreases |s|
  {
    if s != {} {
      var k :| k in s;
      SumExtract(s, f, k);
      SumZero(s - {k}, f);
      assert s == s - {k} + {k};
    }
  }

  /** The count after a call is exact if and only if no other subject's list, as it stood before the call, has a
      timestamp from before the window. */
  lemma CountIsExact(before: Times, subject: string, list: seq<int>, cutoff: int)
    requires AllRecent(list, cutoff)
    ensures Stale(before[subject := list], cutoff) == 0
            <==> forall s | s in before && s != subject :: AllRecent(before[s], cutoff)
  {
    var after := before[subject := list];
    var f := StaleLengths(after, cutoff);
    SumZero(after.Keys, f);
    forall s | s in after ensures f(s) == 0 <==> AllRecent(after[s], cutoff) {
      WholeWindow(after[s], cutoff);
      WindowNoLonger(after[s], cutoff);
    }
    assert forall s | s in before && s != subject :: s in after && after[s] == before[s];
  }

  // ---------------------------------------------------------------- the detector

  /** The newest HISTORY_MAX anomalies. */
  function Newest(all: seq<Anomaly>): seq<Anomaly> {
    if |all| > HISTORY_MAX then all[|all| - HISTORY_MAX..] else all
  }

  class Detector {
    var authFailures: Times
    var entryReads: Times
    var history: seq<Anomaly>

    /** Everything ever recorded, every anomaly ever emitted, and the last clock reading. */
    ghost var allAuth: Times
    ghost var allReads: Times
    ghost var anomalies: seq<Anomaly>
    ghost var clock: int

    ghost predicate Valid()
      reads this
    {
      && KeepsAll(authFailures, allAuth, clock) && KeepsAll(entryReads, allReads, clock)
      && history == Newest(anomalies)
    }

    /** go: NewIntrusionDetector; no later clock reading is before t0. */
    constructor (ghost t0: int)
      ensures Valid() && clock == t0 && anomalies == [] && allAuth == map[] && allReads == map[]
      ensures authFailures == map[] && entryReads == map[]
    {
      authFailures, entryReads, history := map[], map[], [];
      allAuth, allReads, anomalies, clock := map[], map[], [], t0;
    }

    /** go: emit */
    method Emit(ev: Anomaly)
      requires history == Newest(anomalies)
      modifies this`history, this`anomalies
      ensures history == Newest(anomalies) && anomalies == old(anomalies) + [ev]
    {
      if |history| >= HISTORY_MAX {
        history := history[1..];
      }
      history := history + [ev];
      anomalies := anomalies + [ev];
    }

    /** go: RecordEntryRead. Fires exactly when the subject's reads in the window number at least 50. */
    method RecordEntryRead(subject: string, now: int)
      requires Valid() && now >= clock
      modifies this
      ensures Valid() && clock == now
      ensures allReads == old(allReads)[subject := Get(old(allReads), subject) + [now]]
      ensures allAuth == old(allAuth) && authFailures == old(authFailures)
      ensures var n := |InWindow(allReads[subject], now - 300)|;
              anomalies == old(anomalies)
                + if n >= 50 then [Anomaly(RapidEntryAccess, subject, n, now, High)] else []
    {
      hide KeepsAll;
      KeepsAllLater(authFailures, allAuth, clock, now);
      entryReads := Record(entryReads, subject, now, allReads, clock);
      allReads := allReads[subject := Get(allReads, subject) + [now]];
      clock := now;
      var count := |entryReads[subject]|;
      if count >= READ_RATE_THRESHOLD {
        Emit(Anomaly(RapidEntryAccess, subject, count, now, High));
      }
    }

    /** go: RecordAuthFailure. Fires exactly when the failures of all subjects in the window, plus those of other
        subjects that have left it unpruned, number at least 3; so a true count of 3 is never missed. */
    method RecordAuthFailure(subject: string, now: int)
      requires Valid() && now >= clock
      modifies this
      ensures Valid() && clock == now
      ensures allAuth == old(allAuth)[subject := Get(old(allAuth), subject) + [now]]
      ensures allReads == old(allReads) && entryReads == old(entryReads)
      ensures authFailures == old(authFailures)[subject := InWindow(allAuth[subject], now - 300)]
      ensures Stale(authFailures, now - 300) == 0
              <==> forall s | s in old(authFailures) && s != subject :: AllRecent(old(authFailures)[s], now - 300)
      ensures var n := TrueCount(allAuth, now - 300) + Stale(authFailures, now - 300);
              anomalies == old(anomalies)
                + if n >= 3 then [Anomaly(RapidAuthFailures, subject, n, now, Medium)] else []
    {
      hide KeepsAll, InWindow, TrueCount, Stale, Stored;
      KeepsAllLater(entryReads, allReads, clock, now);
      authFailures := Record(authFailures, subject, now, allAuth, clock);
      allAuth := allAuth[subject := Get(allAuth, subject) + [now]];
      clock := now;
      var total := TotalLength(authFailures);
      StoredIsTruePlusStale(authFailures, allAuth, now);
      WindowIsRecent(allAuth[subject], now - WINDOW);
      CountIsExact(old(authFailures), subject, authFailures[subject], now - WINDOW);
      if total >= AUTH_FAIL_THRESHOLD {
        Emit(Anomaly(RapidAuthFailures, subject, total, now, Medium));
      }
    }

    /** go: History. The last 100 anomalies, newest first. */
    method History() returns (result: seq<Anomaly>)
      requires Valid()
      ensures |result| == if |anomalies| > 100 then 100 else |anomalies|
      ensures forall i | 0 <= i < |result| :: result[i] == anomalies[|anomalies| - 1 - i]
    {
      hide KeepsAll;
      if |history| == 0 { return []; }
      var first, n := history[0], |history|;
      var copied := new Anomaly[n](_ => first);
      for i := 0 to n
        invariant forall k | n - i <= k < n :: copied[k] == history[n - 1 - k]
      {
        copied[n - 1 - i] := history[i];
      }
      result := copied[..];
      forall i | 0 <= i < |result| ensures result[i] == anomalies[|anomalies| - 1 - i] {
        assert result[i] == history[n - 1 - i];
      }
    }
  }

  lemma WindowOfCalls()
    ensures InWindow([0], -300) == [0] && InWindow([0, 0], -300) == [0, 0]
    ensures InWindow([0, 0], 700) == [] && InWindow([1000], 700) == [1000]
  {
    assert [0][..0] == [] && [1000][..0] == [] && [0, 0][..1] == [0];
  }

  lemma CountOne(m: Times, s: string, cutoff: int)
    requires m.Keys == {s}
    ensures TrueCount(m, cutoff) == |InWindow(m[s], cutoff)|
    ensures Stale(m, cutoff) == |m[s]| - |InWindow(m[s], cutoff)|
  {
    hide InWindow, SumOver;
    WindowNoLonger(m[s], cutoff);
    assert {s} - {s} == {};
    SumExtract(m.Keys, WindowLengths(m, cutoff), s);
    SumExtract(m.Keys, StaleLengths(m, cutoff), s);
    SumNone(WindowLengths(m, cutoff));
    SumNone(StaleLengths(m, cutoff));
  }

  lemma CountTwo(m: Times, s: string, t: string, cutoff: int)
    requires s != t && m.Keys == {s, t}
    ensures TrueCount(m, cutoff) == |InWindow(m[s], cutoff)| + |InWindow(m[t], cutoff)|
    ensures Stale(m, cutoff) == |m[s]| - |InWindow(m[s], cutoff)| + |m[t]| - |InWindow(m[t], cutoff)|
  {
    hide InWindow, SumOver;
    WindowNoLonger(m[s], cutoff);
    WindowNoLonger(m[t], cutoff);
    assert {s, t} - {s} == {t} && {t} - {t} == {};
    SumExtract(m.Keys, WindowLengths(m, cutoff), s);
    SumExtract(m.Keys, StaleLengths(m, cutoff), s);
    SumExtract({t}, WindowLengths(m, cutoff), t);
    SumExtract({t}, StaleLengths(m, cutoff), t);
    SumNone(WindowLengths(m, cutoff));
    SumNone(StaleLengths(m, cutoff));
  }

  /** Two failures of one subject, and a thousand seconds later one of another: an alarm about three failures, though
      the window holds one. */
  method StaleFailuresCount() returns (d: Detector)
    ensures fresh(d) && d.Valid() && d.clock == 1000
    ensures d.anomalies == [Anomaly(RapidAuthFailures, "b", 3, 1000, Medium)]
    ensures TrueCount(d.allAuth, d.clock - WINDOW) == 1
  {
    hide TrueCount, Stale, InWindow, KeepsAll, Newest, AllRecent;
    WindowOfCalls();
    d := new Detector(0);
    d.RecordAuthFailure("a", 0);
    assert d.allAuth["a"] == [0];
    assert d.allAuth == map["a" := [0]] == d.authFailures;
    CountOne(d.allAuth, "a", -300);
    d.RecordAuthFailure("a", 0);
    assert d.allAuth["a"] == [0, 0];
    assert d.allAuth == map["a" := [0, 0]] == d.authFailures;
    CountOne(d.allAuth, "a", -300);
    d.RecordAuthFailure("b", 1000);
    assert d.allAuth["b"] == [1000];
    assert d.allAuth == map["a" := [0, 0], "b" := [1000]] == d.authFailures;
    CountTwo(d.allAuth, "a", "b", 700);
  }
}
