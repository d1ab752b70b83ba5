/** The tiered rate limiter (engine/security/rate_limiter.go). Time is an integer count of seconds. */
module RateLimiter {
  import opened Wrappers

  /** lockedUntil None is Go's zero time, before every clock reading. */
  datatype Entry = Entry(attempts: nat, lockedUntil: Option<int>, lastAttempt: int)

  type Entries = map<string, Entry>

  /** The lockout the n-th failure brings. */
  function Lockout(n: nat): nat {
    if n >= 21 then 24 * 60 * 60
    else if n >= 16 then 60 * 60
    else if n >= 11 then 10 * 60
    else if n >= 6 then 60
    else 0
  }

  predicate Allowed(m: Entries, subject: string, now: int) {
    !(subject in m && m[subject].lockedUntil.Some? && now < m[subject].lockedUntil.value)
  }

  // ---------------------------------------------------------------- runs

  datatype Call = Check(subject: string, now: int) | Fail(subject: string, now: int) | Succeed(subject: string)

  function AfterFail(m: Entries, subject: string, now: int): Entries {
    var e := if subject in m then m[subject] else Entry(0, None, 0);
    var n := e.attempts + 1;
    m[subject := Entry(n, if Lockout(n) > 0 then Some(now + Lockout(n)) else e.lockedUntil, now)]
  }

  function AfterCall(m: Entries, call: Call): Entries {
    match call
    case Check(_, _) => m
    case Fail(s, now) => AfterFail(m, s, now)
    case Succeed(s) => m - {s}
  }

  function Run(calls: seq<Call>): Entries {
    if calls == [] then map[] else AfterCall(Run(calls[..|calls| - 1]), calls[|calls| - 1])
  }

  function Time(call: Call, before: int): int {
    match call case Check(_, now) => now case Fail(_, now) => now case Succeed(_) => before
  }

  function Clock(calls: seq<Call>, t0: int): int {
    if calls == [] then t0 else Time(calls[|calls| - 1], Clock(calls[..|calls| - 1], t0))
  }

  /** The clock never goes back, whoever reads it. */
  predicate Forward(calls: seq<Call>, t0: int) {
    calls == [] ||
    var front, call := calls[..|calls| - 1], calls[|calls| - 1];
    Forward(front, t0) && Time(call, Clock(front, t0)) >= Clock(front, t0)
  }

  /** The times of a subject's failures since its last success. */
  function FailTimes(calls: seq<Call>, s: string): seq<int> {
    if calls == [] then []
    else
      var front := FailTimes(calls[..|calls| - 1], s);
      match calls[|calls| - 1]
      case Fail(x, now) => if x == s then front + [now] else front
      case Succeed(x) => if x == s then [] else front
      case Check(_, _) => front
  }

  /** A Check of the subject was allowed after its last failure. */
  predicate Cleared(calls: seq<Call>, s: string) {
    calls != [] &&
    var front := calls[..|calls| - 1];
    match calls[|calls| - 1]
    case Check(x, now) => (x == s && Allowed(Run(front), s, now)) || Cleared(front, s)
    case Fail(x, _) => x != s && Cleared(front, s)
    case Succeed(_) => Cleared(front, s)
  }

  /** Each failure of the subject after another follows an allowed Check made in between. */
  predicate Disciplined(calls: seq<Call>, s: string) {
    calls == [] ||
    var front, call := calls[..|calls| - 1], calls[|calls| - 1];
    Disciplined(front, s) && (call.Fail? && call.subject == s && FailTimes(front, s) != [] ==> Cleared(front, s))
  }

  // ---------------------------------------------------------------- the bound

  /** The entry of a subject is a function of its own failures alone. */
  lemma {:induction false} EntryFromFailures(calls: seq<Call>, s: string)
    ensures s in Run(calls) <==> FailTimes(calls, s) != []
    ensures var ts := FailTimes(calls, s);
            ts != [] ==>
              var last := ts[|ts| - 1];
              Run(calls)[s] == Entry(|ts|, if |ts| >= 6 then Some(last + Lockout(|ts|)) else None, last)
  {
    if calls != [] {
      EntryFromFailures(calls[..|calls| - 1], s);
    }
  }

  /** An allowed Check since the last failure means its lockout has been sat out. */
  lemma {:induction false} ClearedHasWaited(calls: seq<Call>, s: string, t0: int)
    requires Forward(calls, t0) && Cleared(calls, s) && FailTimes(calls, s) != []
    ensures var ts := FailTimes(calls, s);
            Lockout(|ts|) > 0 ==> Clock(calls, t0) >= ts[|ts| - 1] + Lockout(|ts|)
  {
    var front, call := calls[..|calls| - 1], calls[|calls| - 1];
    EntryFromFailures(front, s);
    if Cleared(front, s) && FailTimes(front, s) != [] && !(call.Fail? && call.subject == s) {
      ClearedHasWaited(front, s, t0);
    }
  }

  lemma {:induction false} FailuresBeforeClock(calls: seq<Call>, s: string, t0: int)
    requires Forward(calls, t0)
    ensures forall i | 0 <= i < |FailTimes(calls, s)| :: FailTimes(calls, s)[i] <= Clock(calls, t0)
  {
    if calls != [] {
      FailuresBeforeClock(calls[..|calls| - 1], s, t0);
    }
  }

  /** Failure number i + 1 (at index i) is followed by the next no sooner than its lockout. */
  predicate Spaced(ts: seq<int>) {
    forall i: nat | i + 1 < |ts| :: Gap(ts, i) >= Lockout(i + 1)
  }

  function Gap(ts: seq<int>, i: nat): int
    requires i + 1 < |ts|
  {
    ts[i + 1] - ts[i]
  }

  /** Each failure of the subject since its last success came at an instant when Check would have allowed it. */
  predicate Admitted(calls: seq<Call>, s: string) {
    calls == [] ||
    var front := calls[..|calls| - 1];
    match calls[|calls| - 1]
    case Fail(x, now) => Admitted(front, s) && (x == s ==> Allowed(Run(front), s, now))
    case Succeed(x) => x == s || Admitted(front, s)
    case Check(_, _) => Admitted(front, s)
  }

  lemma SpacedNext(ts: seq<int>, now: int)
    requires ts != []
    ensures Spaced(ts + [now]) <==> Spaced(ts) && now - ts[|ts| - 1] >= Lockout(|ts|)
  {
    var more, n := ts + [now], |ts| - 1;
    forall i: nat | i + 1 < |ts| ensures Gap(more, i) == Gap(ts, i) {
    }
    assert Gap(more, n) == now - ts[n];
    if Spaced(ts) && now - ts[n] >= Lockout(|ts|) {
      forall i: nat | i + 1 < |more| ensures Gap(more, i) >= Lockout(i + 1) {
        if i < n {
          assert Gap(more, i) == Gap(ts, i);
        }
      }
    }
    if Spaced(more) {
      forall i: nat | i + 1 < |ts| ensures Gap(ts, i) >= Lockout(i + 1) {
        assert Gap(more, i) == Gap(ts, i);
      }
    }
  }

  /** The failures of a subject are spaced by their lockouts exactly when each came while Check would have allowed it. */
  lemma {:induction false} SpacedExactly(calls: seq<Call>, s: string, t0: int)
    requires Forward(calls, t0)
    ensures Spaced(FailTimes(calls, s)) <==> Admitted(calls, s)
  {
    if calls != [] {
      var front, call := calls[..|calls| - 1], calls[|calls| - 1];
      SpacedExactly(front, s, t0);
      EntryFromFailures(front, s);
      if call.Fail? && call.subject == s && FailTimes(front, s) != [] {
        FailuresBeforeClock(front, s, t0);
        SpacedNext(FailTimes(front, s), call.now);
      }
    }
  }

  /** Asking first is enough. */
  lemma {:induction false} DisciplinedIsAdmitted(calls: seq<Call>, s: string, t0: int)
    requires Forward(calls, t0) && Disciplined(calls, s)
    ensures Admitted(calls, s)
  {
    if calls != [] {
      var front, call := calls[..|calls| - 1], calls[|calls| - 1];
      DisciplinedIsAdmitted(front, s, t0);
      if call.Fail? && call.subject == s {
        EntryFromFailures(front, s);
        if FailTimes(front, s) != [] {
          ClearedHasWaited(front, s, t0);
        }
      }
    }
  }

  /** The lockouts of failures m up to but not including n. */
  function Total(m: nat, n: nat): nat
    requires m <= n
  {
    if m == n then 0 else Total(m, n - 1) + Lockout(n - 1)
  }

  lemma {:induction false} SpacedTotal(ts: seq<int>, m: nat, n: nat)
    requires Spaced(ts) && 1 <= m <= n <= |ts|
    ensures ts[n - 1] - ts[m - 1] >= Total(m, n)
    decreases n
  {
    if m < n {
      SpacedTotal(ts, m, n - 1);
      assert Gap(ts, n - 2) >= Lockout(n - 1);
    }
  }

  lemma {:induction false} TotalConstant(m: nat, a: nat, k: nat, d: nat)
    requires m <= a && forall i | a <= i < a + k :: Lockout(i) == d
    ensures Total(m, a + k) == Total(m, a) + k * d
  {
    hide Lockout;
    if k > 0 {
      TotalConstant(m, a, k - 1, d);
      OneMore(k - 1, d);
    }
  }

  lemma OneMore(k: nat, d: nat)
    ensures (k + 1) * d == k * d + d
  {
  }

  lemma TotalFromSixth(n: nat)
    requires n >= 21
    ensures Total(6, n) == 21300 + (n - 21) * 86400
  {
    TotalConstant(6, 6, 5, 60);
    TotalConstant(6, 11, 5, 600);
    TotalConstant(6, 16, 5, 3600);
    TotalConstant(6, 21, n - 21, 86400);
  }

  /** In any run where each failure of s comes while Check would have allowed it, and whatever other subjects do, its
      n-th failure, n at least 21, comes at least 21300 + (n - 21) * 86400 seconds after its sixth. */
  lemma TimeBound(calls: seq<Call>, s: string, t0: int, n: nat)
    requires Forward(calls, t0) && Admitted(calls, s)
    requires 21 <= n <= |FailTimes(calls, s)|
    ensures FailTimes(calls, s)[n - 1] - FailTimes(calls, s)[5] >= 21300 + (n - 21) * 86400
  {
    SpacedExactly(calls, s, t0);
    SpacedTotal(FailTimes(calls, s), 6, n);
    TotalFromSixth(n);
  }

  /** n failures of s at one moment, with no Check. */
  function Unasked(n: nat, s: string, now: int): seq<Call> {
    if n == 0 then [] else Unasked(n - 1, s, now) + [Fail(s, now)]
  }

  /** The limiter records them all, and the bound fails as soon as it speaks of them. */
  lemma {:induction false} UnaskedFailures(n: nat, s: string, now: int)
    ensures var ts := FailTimes(Unasked(n, s, now), s);
            |ts| == n && forall i | 0 <= i < n :: ts[i] == now
    ensures Forward(Unasked(n, s, now), now) && Clock(Unasked(n, s, now), now) == now
    ensures Admitted(Unasked(n, s, now), s) <==> n <= 6
  {
    if n > 0 {
      var front, call := Unasked(n - 1, s, now), Fail(s, now);
      UnaskedFailures(n - 1, s, now);
      assert (front + [call])[..|front|] == front;
      AllowedAfter(front, s, now);
      hide Run, Allowed, Lockout;
    }
  }

  /** What Check says depends on the number of failures since the last success and the time of the last one. */
  lemma AllowedAfter(calls: seq<Call>, s: string, now: int)
    ensures var ts := FailTimes(calls, s);
            Allowed(Run(calls), s, now) <==>
              || |ts| <= 5
              || now - ts[|ts| - 1]
                 >= if |ts| <= 10 then 60 else if |ts| <= 15 then 600 else if |ts| <= 20 then 3600 else 86400
  {
    EntryFromFailures(calls, s);
  }

  // ---------------------------------------------------------------- the limiter

  class Limiter {
    var entries: Entries

    constructor ()
      ensures entries == map[]
    {
      entries := map[];
    }

    /** go: Check */
    method Check(subject: string, now: int) returns (allowed: bool, lockedUntil: Option<int>)
      ensures allowed <==> Allowed(entries, subject, now)
      ensures lockedUntil == if allowed then None else entries[subject].lockedUntil
    {
      if subject !in entries { return true, None; }
      var entry := entries[subject];
      if entry.lockedUntil.Some? && now < entry.lockedUntil.value { return false, entry.lockedUntil; }
      return true, None;
    }

    /** go: RecordFailure */
    method RecordFailure(subject: string, now: int) returns (lockout: nat, totalFailures: nat)
      modifies this
      ensures entries == AfterFail(old(entries), subject, now)
      ensures totalFailures == (if subject in old(entries) then old(entries)[subject].attempts else 0) + 1
      ensures totalFailures <= 5 ==> lockout == 0
      ensures 6 <= totalFailures <= 10 ==> lockout == 60
      ensures 11 <= totalFailures <= 15 ==> lockout == 600
      ensures 16 <= totalFailures <= 20 ==> lockout == 3600
      ensures 21 <= totalFailures ==> lockout == 86400
      ensures lockout > 0 ==> forall t :: Allowed(entries, subject, t) <==> t >= now + lockout
    {
      if subject !in entries {
        entries := entries[subject := Entry(0, None, 0)];
      }
      var entry := entries[subject];
      entry := entry.(attempts := entry.attempts + 1, lastAttempt := now);
      totalFailures := entry.attempts;
      if entry.attempts >= 21 {
        lockout := 24 * 60 * 60;
      } else if entry.attempts >= 16 {
        lockout := 60 * 60;
      } else if entry.attempts >= 11 {
        lockout := 10 * 60;
      } else if entry.attempts >= 6 {
        lockout := 60;
      } else {
        lockout := 0;
      }
      if lockout > 0 {
        entry := entry.(lockedUntil := Some(now + lockout));
      }
      entries := entries[subject := entry];
    }

    /** go: RecordSuccess */
    method RecordSuccess(subject: string)
      modifies this
      ensures entries == old(entries) - {subject}
    {
      if subject in entries {
        entries := entries - {subject};
      }
    }
  }
}
