/** The login rate limiter: backend/app/auth/rate_limiter.py. Every method body runs under the lock,
    so each is one atomic call; `now` is the clock reading it takes inside the lock. */
module RateLimiter {
  type Attempts = map<string, seq<real>>

  function TimesOf(attempts: Attempts, key: string): seq<real> {
    if key in attempts then attempts[key] else []
  }

  /** The timestamps strictly after the cutoff, in order. */
  function Fresh(times: seq<real>, cutoff: real): seq<real> {
    if times == [] then []
    else
      var n := |times| - 1;
      Fresh(times[..n], cutoff) + if times[n] > cutoff then [times[n]] else []
  }

  function Stored(attempts: Attempts, key: string, times: seq<real>): Attempts {
    if times != [] then attempts[key := times] else attempts - {key}
  }

  function Pruned(attempts: Attempts, key: string, cutoff: real): Attempts {
    Stored(attempts, key, Fresh(TimesOf(attempts, key), cutoff))
  }

  /** One call of the limiter, with the time at which it takes effect. */
  datatype Call =
    | IsBlocked(now: real, key: string)
    | RecordFailure(now: real, key: string)
    | Reset(now: real, key: string)
    | Clear(now: real)

  function Apply(attempts: Attempts, call: Call, window: real): Attempts {
    match call
    case IsBlocked(now, key) => Pruned(attempts, key, now - window)
    case RecordFailure(now, key) => attempts[key := Fresh(TimesOf(attempts, key), now - window) + [now]]
    case Reset(_, key) => attempts - {key}
    case Clear(_) => map[]
  }

  function Run(calls: seq<Call>, window: real): Attempts {
    if calls == [] then map[] else Apply(Run(calls[..|calls| - 1], window), calls[|calls| - 1], window)
  }

  class LoginRateLimiter {
    const maxAttempts: int
    const windowSeconds: real
    var attempts: Attempts

    constructor (maxAttempts: int, windowSeconds: real)
      ensures this.maxAttempts == maxAttempts && this.windowSeconds == windowSeconds
      ensures attempts == map[]
    {
      this.maxAttempts, this.windowSeconds := maxAttempts, windowSeconds;
      attempts := map[];
    }

    method PruneLocked(key: string, now: real) returns (recent: seq<real>)
      modifies this
      ensures recent == Fresh(TimesOf(old(attempts), key), now - windowSeconds)
      ensures attempts == Pruned(old(attempts), key, now - windowSeconds)
    {
      var timestamps := if key in attempts then attempts[key] else [];
      var cutoff := now - windowSeconds;
      recent := [];
      for i := 0 to |timestamps|
        invariant recent == Fresh(timestamps[..i], cutoff)
        invariant attempts == old(attempts)
      {
        if timestamps[i] > cutoff {
          recent := recent + [timestamps[i]];
        }
        assert timestamps[..i + 1][..i] == timestamps[..i];
      }
      assert timestamps[..|timestamps|] == timestamps;
      if recent != [] {
        attempts := attempts[key := recent];
      } else {
        attempts := attempts - {key};
      }
    }

    method IsBlocked(key: string, now: real) returns (blocked: bool)
      modifies this
      ensures attempts == Apply(old(attempts), Call.IsBlocked(now, key), windowSeconds)
      ensures blocked <==> |Fresh(TimesOf(old(attempts), key), now - windowSeconds)| >= maxAttempts
    {
      var timestamps := PruneLocked(key, now);
      blocked := |timestamps| >= maxAttempts;
    }

    method RecordFailure(key: string, now: real)
      modifies this
      ensures attempts == Apply(old(attempts), Call.RecordFailure(now, key), windowSeconds)
    {
      var timestamps := PruneLocked(key, now);
      attempts := attempts[key := timestamps + [now]];
    }

    method Reset(key: string)
      modifies this
      ensures forall now :: attempts == Apply(old(attempts), Call.Reset(now, key), windowSeconds)
    {
      attempts := attempts - {key};
    }

    method ClearAll()
      modifies this
      ensures attempts == map[]
    {
      attempts := map[];
    }
  }

  // ---------- the unpruned history ----------

  /** Every failure recorded for `key` since its last reset, whatever its age. */
  function History(calls: seq<Call>, key: string): seq<real> {
    if calls == [] then [] else Remember(History(calls[..|calls| - 1], key), calls[|calls| - 1], key)
  }

  function Remember(before: seq<real>, call: Call, key: string): seq<real> {
    match call
    case IsBlocked(_, _) => before
    case RecordFailure(now, k) => if k == key then before + [now] else before
    case Reset(_, k) => if k == key then [] else before
    case Clear(_) => []
  }

  ghost predicate Monotone(calls: seq<Call>) {
    forall i, j :: 0 <= i < j < |calls| ==> calls[i].now <= calls[j].now
  }

  /** Counting over a history, without filtering it. */
  ghost function InWindow(times: seq<real>, cutoff: real): set<int> {
    set i | 0 <= i < |times| && times[i] > cutoff
  }

  lemma {:induction false} FreshCounts(times: seq<real>, cutoff: real)
    ensures |Fresh(times, cutoff)| == |InWindow(times, cutoff)|
  {
    if times != [] {
      var n := |times| - 1;
      FreshCounts(times[..n], cutoff);
      assert InWindow(times, cutoff) == InWindow(times[..n], cutoff) + if times[n] > cutoff then {n} else {};
    }
  }

  lemma {:induction false} FreshTwice(times: seq<real>, early: real, late: real)
    requires early <= late
    ensures Fresh(Fresh(times, early), late) == Fresh(times, late)
    ensures |Fresh(times, late)| <= |Fresh(times, early)|
  {
    if times != [] {
      var n := |times| - 1;
      FreshTwice(times[..n], early, late);
      if times[n] > early {
        FreshAppend(Fresh(times[..n], early), times[n], late);
      } else {
        assert Fresh(times, early) == Fresh(times[..n], early);
        assert Fresh(times, late) == Fresh(times[..n], late);
      }
    }
  }

  lemma {:induction false} FreshAppend(times: seq<real>, t: real, cutoff: real)
    ensures Fresh(times + [t], cutoff) == Fresh(times, cutoff) + if t > cutoff then [t] else []
  {
    assert (times + [t])[..|times|] == times;
  }

  lemma {:induction false} ApplyEffect(attempts: Attempts, call: Call, window: real, key: string)
    ensures var times := TimesOf(Apply(attempts, call, window), key);
      var kept := Fresh(TimesOf(attempts, key), call.now - window);
      match call
      case IsBlocked(_, k) => times == if k == key then kept else TimesOf(attempts, key)
      case RecordFailure(now, k) => times == if k == key then kept + [now] else TimesOf(attempts, key)
      case Reset(_, k) => times == if k == key then [] else TimesOf(attempts, key)
      case Clear(_) => times == []
  {
  }

  /** Pruning at a call is invisible at every later cutoff. */
  lemma {:induction false} ApplyRemembers(attempts: Attempts, call: Call, window: real, key: string, cutoff: real)
    requires call.now - window <= cutoff
    ensures Fresh(TimesOf(Apply(attempts, call, window), key), cutoff)
         == Fresh(Remember(TimesOf(attempts, key), call, key), cutoff)
  {
    ApplyEffect(attempts, call, window, key);
    if (call.IsBlocked? || call.RecordFailure?) && call.key == key {
      var times := TimesOf(attempts, key);
      FreshTwice(times, call.now - window, cutoff);
      FreshAppend(Fresh(times, call.now - window), call.now, cutoff);
      FreshAppend(times, call.now, cutoff);
    }
  }

  /** The pruned dict and the full history agree on every cutoff still to come. */
  lemma {:induction false} PrunedAgrees(calls: seq<Call>, window: real, key: string, cutoff: real)
    requires Monotone(calls)
    requires calls != [] ==> calls[|calls| - 1].now - window <= cutoff
    ensures Fresh(TimesOf(Run(calls, window), key), cutoff) == Fresh(History(calls, key), cutoff)
  {
    if calls != [] {
      var rest, call := calls[..|calls| - 1], calls[|calls| - 1];
      assert rest != [] ==> rest[|rest| - 1].now <= call.now;
      PrunedAgrees(rest, window, key, cutoff);
      ApplyRemembers(Run(rest, window), call, window, key, cutoff);
      FreshAppend(TimesOf(Run(rest, window), key), call.now, cutoff);
      FreshAppend(History(rest, key), call.now, cutoff);
    }
  }

  lemma {:induction false} NoEmptyList(calls: seq<Call>, window: real, key: string)
    ensures key in Run(calls, window) ==> Run(calls, window)[key] != []
  {
    if calls != [] {
      NoEmptyList(calls[..|calls| - 1], window, key);
    }
  }

  /** On every run with a non-decreasing clock, comparing the pruned list with the limit answers as
      counting the full history does; and no key is kept with an empty list. */
  lemma LimiterRefinement(calls: seq<Call>, window: real, maxAttempts: int, key: string, now: real)
    requires Monotone(calls)
    requires calls != [] ==> calls[|calls| - 1].now <= now
    ensures |Fresh(TimesOf(Run(calls, window), key), now - window)| >= maxAttempts
        <==> |InWindow(History(calls, key), now - window)| >= maxAttempts
    ensures key in Run(calls, window) ==> Run(calls, window)[key] != []
  {
    PrunedAgrees(calls, window, key, now - window);
    FreshCounts(History(calls, key), now - window);
    NoEmptyList(calls, window, key);
  }
}
