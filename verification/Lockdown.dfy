/** Progressive lockdown (engine/security/lockdown.go). Time is an integer count of nanoseconds. */
module Lockdown {
  datatype Level = NoLockdown | Soft | Hard

  /** The manager's fields; the configuration never changes. */
  datatype Core = Core(failures: int, overridesLeft: int, lockdownUntil: int, level: Level)

  datatype Config = Config(threshold: int, maxOverrides: int, lockdownMinutes: int)

  const MINUTE := 60_000_000_000

  predicate Positive(c: Config) { c.threshold >= 1 && c.maxOverrides >= 1 && c.lockdownMinutes >= 1 }

  function Fresh(c: Config): Core { Core(0, c.maxOverrides, 0, NoLockdown) }

  // ---------------------------------------------------------------- calls as functions

  datatype Call = Failure(now: int) | Success | Query(now: int) | Trigger

  function AfterFailure(c: Config, s: Core, now: int): Core {
    match s.level
    case Hard => s
    case Soft =>
      var left := s.overridesLeft - 1;
      s.(overridesLeft := left, level := if left <= 0 then Hard else Soft)
    case NoLockdown =>
      var failures := s.failures + 1;
      if failures >= c.threshold
      then s.(failures := failures, level := Soft, lockdownUntil := now + c.lockdownMinutes * MINUTE)
      else s.(failures := failures)
  }

  predicate Expires(s: Core, now: int) { s.level == Soft && now > s.lockdownUntil }

  function AfterCall(c: Config, s: Core, call: Call): Core {
    match call
    case Failure(now) => AfterFailure(c, s, now)
    case Success => Fresh(c)
    case Query(now) => if Expires(s, now) then s.(level := NoLockdown, failures := 0, overridesLeft := c.maxOverrides) else s
    case Trigger => s.(level := Hard)
  }

  function Remaining(c: Config, s: Core): int {
    match s.level
    case Soft => s.overridesLeft
    case Hard => 0
    case NoLockdown => c.threshold - s.failures
  }

  // ---------------------------------------------------------------- the invariant

  /** What failures and overridesLeft say in each level. */
  predicate Consistent(c: Config, s: Core) {
    match s.level
    case NoLockdown => 0 <= s.failures < c.threshold && s.overridesLeft == c.maxOverrides
    case Soft => s.failures == c.threshold && 1 <= s.overridesLeft <= c.maxOverrides
    case Hard => s.overridesLeft <= c.maxOverrides
  }

  lemma CallsKeepConsistent(c: Config, s: Core, call: Call)
    requires Positive(c) && Consistent(c, s)
    ensures Consistent(c, AfterCall(c, s, call))
    ensures s.level == Hard && !call.Success? ==> AfterCall(c, s, call).level == Hard
  {
  }

  lemma RemainingZeroIsHard(c: Config, s: Core)
    requires Positive(c) && Consistent(c, s)
    ensures Remaining(c, s) == 0 <==> s.level == Hard
    ensures Remaining(c, s) >= 0
  {
  }

  // ---------------------------------------------------------------- runs

  function Run(c: Config, calls: seq<Call>): Core {
    if calls == [] then Fresh(c) else AfterCall(c, Run(c, calls[..|calls| - 1]), calls[|calls| - 1])
  }

  function Time(call: Call, before: int): int {
    match call
    case Failure(now) => now
    case Query(now) => now
    case _ => before
  }

  /** The clock reading last seen, starting from t0. */
  function Clock(calls: seq<Call>, t0: int): int {
    if calls == [] then t0 else Time(calls[|calls| - 1], Clock(calls[..|calls| - 1], t0))
  }

  /** No call sees the clock behind an earlier one, and none reports success. */
  predicate Forward(calls: seq<Call>, t0: int) {
    calls == [] ||
    var front, call := calls[..|calls| - 1], calls[|calls| - 1];
    Forward(front, t0) && !call.Success? && Time(call, Clock(front, t0)) >= Clock(front, t0)
  }

  function Failures(calls: seq<Call>): nat {
    if calls == [] then 0
    else Failures(calls[..|calls| - 1]) + if calls[|calls| - 1].Failure? then 1 else 0
  }

  /** How many soft lockdowns ran out and were lifted by State. */
  function Expiries(c: Config, calls: seq<Call>): nat {
    if calls == [] then 0
    else
      var front, call := calls[..|calls| - 1], calls[|calls| - 1];
      Expiries(c, front) + if call.Query? && Expires(Run(c, front), call.now) then 1 else 0
  }

  /** Failures counted since the last expiry. */
  function Spent(c: Config, s: Core): int {
    match s.level
    case Soft => c.threshold + (c.maxOverrides - s.overridesLeft)
    case _ => s.failures
  }

  lemma {:induction false} ReachableConsistent(c: Config, calls: seq<Call>)
    requires Positive(c)
    ensures Consistent(c, Run(c, calls))
  {
    if calls != [] {
      ReachableConsistent(c, calls[..|calls| - 1]);
      CallsKeepConsistent(c, Run(c, calls[..|calls| - 1]), calls[|calls| - 1]);
    }
  }

  lemma BudgetStep(c: Config, k: nat, x: int, n: int)
    requires x <= n && n == c.threshold + c.maxOverrides - 1
    ensures k * n + x <= (k + 1) * n
  {
  }

  lemma {:induction false} Progress(c: Config, calls: seq<Call>, t0: int)
    requires Positive(c) && Forward(calls, t0) && Run(c, calls).level != Hard
    ensures Failures(calls) <= Expiries(c, calls) * (c.threshold + c.maxOverrides - 1) + Spent(c, Run(c, calls))
    ensures Clock(calls, t0) >= t0 + Expiries(c, calls) * (c.lockdownMinutes * MINUTE)
            + if Expiries(c, calls) > 0 then 1 else 0
    ensures Run(c, calls).level == Soft ==>
              Run(c, calls).lockdownUntil >= t0 + (Expiries(c, calls) + 1) * (c.lockdownMinutes * MINUTE)
  {
    if calls != [] {
      var front, call := calls[..|calls| - 1], calls[|calls| - 1];
      ReachableConsistent(c, front);
      CallsKeepConsistent(c, Run(c, front), call);
      Progress(c, front, t0);
      var k, n, lock := Expiries(c, front), c.threshold + c.maxOverrides - 1, c.lockdownMinutes * MINUTE;
      assert (k + 1) * lock == k * lock + lock;
      BudgetStep(c, k, Spent(c, Run(c, front)), n);
    }
  }

  /** From a fresh manager, with a clock that never goes back and no success reported: while the hard lockdown is
      not reached, k expired soft lockdowns leave room for at most (k+1) * (threshold + maxOverrides - 1)
      failures, and cost more than k lockdown periods of time. */
  lemma AttemptBound(c: Config, calls: seq<Call>, t0: int)
    requires Positive(c) && Forward(calls, t0) && Run(c, calls).level != Hard
    ensures Failures(calls) <= (Expiries(c, calls) + 1) * (c.threshold + c.maxOverrides - 1)
    ensures Expiries(c, calls) > 0 ==> Clock(calls, t0) - t0 > Expiries(c, calls) * (c.lockdownMinutes * MINUTE)
  {
    Progress(c, calls, t0);
    ReachableConsistent(c, calls);
    BudgetStep(c, Expiries(c, calls), Spent(c, Run(c, calls)), c.threshold + c.maxOverrides - 1);
  }

  /** A soft lockdown that began with the failure at t, and has stayed since, is lifted by a State call exactly when that
      comes strictly after t and the configured minutes. */
  lemma SoftEndsExactly(c: Config, before: seq<Call>, t: int, during: seq<Call>, now: int)
    requires Positive(c) && Run(c, before).level == NoLockdown
    requires forall k | 0 <= k <= |during| :: Run(c, before + [Failure(t)] + during[..k]).level == Soft
    ensures var s := Run(c, before + [Failure(t)] + during + [Query(now)]);
            s.level == if now > t + c.lockdownMinutes * 60_000_000_000 then NoLockdown else Soft
    ensures var s := Run(c, before + [Failure(t)] + during + [Query(now)]);
            s.level == NoLockdown ==> s.failures == 0 && s.overridesLeft == c.maxOverrides
  {
    var all := before + [Failure(t)] + during;
    assert during[..|during|] == during;
    SoftUntil(c, before, t, during);
    assert (all + [Query(now)])[..|all|] == all;
  }

  lemma {:induction false} SoftUntil(c: Config, before: seq<Call>, t: int, during: seq<Call>)
    requires Positive(c) && Run(c, before).level == NoLockdown
    requires forall k | 0 <= k <= |during| :: Run(c, before + [Failure(t)] + during[..k]).level == Soft
    ensures Run(c, before + [Failure(t)] + during).lockdownUntil == t + c.lockdownMinutes * 60_000_000_000
    ensures Run(c, before + [Failure(t)] + during).level == Soft
  {
    var start := before + [Failure(t)];
    assert during[..|during|] == during;
    if during == [] {
      assert start + during == start && start[..|before|] == before;
    } else {
      var n := |during| - 1;
      var front := during[..n];
      forall k | 0 <= k <= n ensures Run(c, start + front[..k]).level == Soft {
        assert front[..k] == during[..k];
      }
      SoftUntil(c, before, t, front);
      assert (start + during)[..|start + front|] == start + front;
    }
  }

  /** n failures in a row at one moment. */
  function Burst(n: nat, now: int): seq<Call> {
    if n == 0 then [] else Burst(n - 1, now) + [Failure(now)]
  }

  /** Where n failures in a row leave a fresh manager; in particular the bound without expiries is reached,
      and one failure more is the hard lockdown. */
  lemma {:induction false} BurstExactly(c: Config, n: nat, now: int)
    requires Positive(c)
    ensures Failures(Burst(n, now)) == n && Expiries(c, Burst(n, now)) == 0
    ensures Run(c, Burst(n, now)).level == Hard <==> n >= c.threshold + c.maxOverrides
    ensures n < c.threshold ==> Run(c, Burst(n, now)) == Core(n, c.maxOverrides, 0, NoLockdown)
    ensures c.threshold <= n < c.threshold + c.maxOverrides ==>
              Run(c, Burst(n, now)).level == Soft
              && Run(c, Burst(n, now)).overridesLeft == c.maxOverrides - (n - c.threshold)
  {
    if n > 0 {
      BurstExactly(c, n - 1, now);
      assert Burst(n, now)[..|Burst(n, now)| - 1] == Burst(n - 1, now);
    }
  }

  /** Once hard, always hard, unless a success is reported. */
  lemma {:induction false} HardIsFinal(c: Config, calls: seq<Call>, more: seq<Call>)
    requires Positive(c) && Run(c, calls).level == Hard
    requires forall i | 0 <= i < |more| :: !more[i].Success?
    ensures Run(c, calls + more).level == Hard
  {
    if more == [] {
      assert calls + more == calls;
    } else {
      HardIsFinal(c, calls, more[..|more| - 1]);
      assert (calls + more)[..|calls + more| - 1] == calls + more[..|more| - 1];
    }
  }

  // ---------------------------------------------------------------- the manager

  class LockdownManager {
    var failures: int
    const threshold: int
    var overridesLeft: int
    const maxOverrides: int
    var lockdownUntil: int
    const lockdownMinutes: int
    var level: Level

    function Settings(): Config { Config(threshold, maxOverrides, lockdownMinutes) }

    function Now(): Core
      reads this
    {
      Core(failures, overridesLeft, lockdownUntil, level)
    }

    ghost predicate Valid()
      reads this
    {
      Positive(Settings()) && Consistent(Settings(), Now())
    }

    /** go: NewLockdownManager. Settings that are not positive get the defaults. */
    constructor (cfg: Config)
      ensures Valid() && Now() == Fresh(Settings())
      ensures threshold == if cfg.threshold >= 1 then cfg.threshold else 3
      ensures maxOverrides == if cfg.maxOverrides >= 1 then cfg.maxOverrides else 4
      ensures lockdownMinutes == if cfg.lockdownMinutes >= 1 then cfg.lockdownMinutes else 200
    {
      threshold := if cfg.threshold <= 0 then 3 else cfg.threshold;
      maxOverrides := if cfg.maxOverrides <= 0 then 4 else cfg.maxOverrides;
      lockdownMinutes := if cfg.lockdownMinutes <= 0 then 200 else cfg.lockdownMinutes;
      overridesLeft := if cfg.maxOverrides <= 0 then 4 else cfg.maxOverrides;
      failures, lockdownUntil, level := 0, 0, NoLockdown;
    }

    /** go: RecordFailure. onHard says whether the callback runs; attempts is the count in the error returned. */
    method RecordFailure(now: int) returns (result: Level, onHard: bool, attempts: int)
      requires Valid()
      modifies this
      ensures Valid() && Now() == AfterCall(Settings(), old(Now()), Failure(now))
      ensures result == level
      ensures onHard <==> level == Hard && old(level) != Hard
      ensures attempts == if level == old(level) then Remaining(Settings(), Now()) else 0
    {
      match level {
        case Hard =>
          return Hard, false, 0;
        case Soft =>
          overridesLeft := overridesLeft - 1;
          if overridesLeft <= 0 {
            level := Hard;
            return Hard, true, 0;
          }
          return Soft, false, overridesLeft;
        case NoLockdown =>
          failures := failures + 1;
          if failures >= threshold {
            level := Soft;
            lockdownUntil := now + lockdownMinutes * MINUTE;
            return Soft, false, 0;
          }
          return NoLockdown, false, threshold - failures;
      }
    }

    /** go: RecordSuccess */
    method RecordSuccess()
      requires Valid()
      modifies this
      ensures Valid() && Now() == AfterCall(Settings(), old(Now()), Success)
    {
      failures := 0;
      overridesLeft := maxOverrides;
      level := NoLockdown;
      lockdownUntil := 0;
    }

    /** go: State. The only place where a soft lockdown runs out. */
    method State(now: int) returns (result: Level)
      requires Valid()
      modifies this
      ensures Valid() && Now() == AfterCall(Settings(), old(Now()), Query(now))
      ensures result == level
    {
      if level == Soft && now > lockdownUntil {
        level := NoLockdown;
        failures := 0;
        overridesLeft := maxOverrides;
      }
      return level;
    }

    /** go: RemainingAttempts */
    method RemainingAttempts() returns (n: int)
      requires Valid()
      ensures n == Remaining(Settings(), Now())
      ensures n == 0 <==> level == Hard
    {
      match level {
        case Soft => return overridesLeft;
        case Hard => return 0;
        case NoLockdown => return threshold - failures;
      }
    }

    /** go: TriggerHard */
    method TriggerHard()
      requires Valid()
      modifies this
      ensures Valid() && Now() == AfterCall(Settings(), old(Now()), Trigger)
    {
      level := Hard;
    }
  }
}
