/** When scheduled syncs run: backend/app/services/schema_sync.py, _maybe_run_scheduled_sync and
    schema_sync_loop. The effect of one sync is modelled in Authorization. */
module SyncScheduler {
  import opened Prelude

  /** How refresh_backend_schema ends, should this tick call it. */
  datatype Sync = Refreshed | Raised(error: string)

  /** What a tick finds in the database. Unreadable: the read itself raises, and the loop logs it. */
  datatype Reading =
    | Unreadable
    | NoConfig
    | Configured(override: Option<int>, sync: Sync)

  /** One pass of the loop; `now` is the clock in seconds. */
  datatype Tick = Tick(now: real, reading: Reading)

  function EffectiveInterval(override: Option<int>, default: int): int {
    if override.Some? then override.value else default
  }

  /** The interval in force at a tick; 0 when there is nothing to sync. */
  function IntervalAt(tick: Tick, default: int): int {
    if tick.reading.Configured? then EffectiveInterval(tick.reading.override, default) else 0
  }

  /** The ticks that run a sync, as indices, for a process that has just started. */
  function Runs(ticks: seq<Tick>, default: int): (runs: seq<nat>)
    ensures forall p :: 0 <= p < |runs| ==> runs[p] < |ticks|
  {
    if ticks == [] then []
    else
      var n := |ticks| - 1;
      var before := Runs(ticks[..n], default);
      var interval := IntervalAt(ticks[n], default);
      if interval > 0 && (before == [] || ticks[n].now - ticks[before[|before| - 1]].now >= interval as real)
      then before + [n]
      else before
  }

  function LastRunAt(ticks: seq<Tick>, default: int): Option<real> {
    var runs := Runs(ticks, default);
    if runs == [] then None else Some(ticks[runs[|runs| - 1]].now)
  }

  /** What the loop remembers, and what it has done: the ticks that ran, the ticks that logged a failure. */
  datatype Loop = Loop(lastRunAt: Option<real>, runs: seq<nat>, warnings: seq<nat>)

  /** One pass, with the try and except around the sync. */
  function Pass(loop: Loop, i: nat, tick: Tick, default: int): Loop {
    if !tick.reading.Configured? then loop
    else
      var interval := EffectiveInterval(tick.reading.override, default);
      if interval <= 0 then loop
      else if loop.lastRunAt.Some? && tick.now - loop.lastRunAt.value < interval as real then loop
      else
        match tick.reading.sync
        case Refreshed => Loop(Some(tick.now), loop.runs + [i], loop.warnings)
        case Raised(_) => Loop(Some(tick.now), loop.runs + [i], loop.warnings + [i])
  }

  function LoopAfter(ticks: seq<Tick>, default: int): Loop {
    if ticks == [] then Loop(None, [], [])
    else Pass(LoopAfter(ticks[..|ticks| - 1], default), |ticks| - 1, ticks[|ticks| - 1], default)
  }

  /** Returns the new last_run_at; a sync that raises is logged and counts as a run. */
  method MaybeRunScheduledSync(tick: Tick, lastRunAt: Option<real>, default: int)
    returns (last: Option<real>, ran: bool, warned: bool)
    requires !tick.reading.Unreadable?
    ensures last == if ran then Some(tick.now) else lastRunAt
    ensures match tick.reading
      case Configured(Some(v), _) => ran <==> v > 0 && (lastRunAt.None? || tick.now - lastRunAt.value >= v as real)
      case Configured(None, _) =>
        ran <==> default > 0 && (lastRunAt.None? || tick.now - lastRunAt.value >= default as real)
      case _ => !ran
    ensures warned <==> ran && tick.reading.sync.Raised?
  {
    if tick.reading.NoConfig? {
      return lastRunAt, false, false;
    }
    var interval := EffectiveInterval(tick.reading.override, default);
    if interval <= 0 {
      return lastRunAt, false, false;
    }
    if lastRunAt.Some? && tick.now - lastRunAt.value < interval as real {
      return lastRunAt, false, false;
    }
    match tick.reading.sync {
      case Refreshed =>
        return Some(tick.now), true, false;
      case Raised(_) =>
        return Some(tick.now), true, true;
    }
  }

  lemma {:induction false} RunsSnoc(ticks: seq<Tick>, i: nat, default: int)
    requires i < |ticks|
    ensures var last, interval := LastRunAt(ticks[..i], default), IntervalAt(ticks[i], default);
      var ran := interval > 0 && (last.None? || ticks[i].now - last.value >= interval as real);
      && Runs(ticks[..i + 1], default) == Runs(ticks[..i], default) + (if ran then [i] else [])
      && LastRunAt(ticks[..i + 1], default) == if ran then Some(ticks[i].now) else last
  {
    assert ticks[..i + 1][..i] == ticks[..i];
  }

  /** The loop up to its cancellation after the given ticks. */
  method SchemaSyncLoop(ticks: seq<Tick>, default: int) returns (runs: seq<nat>, warnings: seq<nat>)
    ensures runs == LoopAfter(ticks, default).runs && warnings == LoopAfter(ticks, default).warnings
  {
    runs, warnings := [], [];
    var lastRunAt: Option<real> := None;
    for i := 0 to |ticks|
      invariant Loop(lastRunAt, runs, warnings) == LoopAfter(ticks[..i], default)
    {
      assert ticks[..i + 1][..i] == ticks[..i];
      if !ticks[i].reading.Unreadable? {
        var ran, warned: bool;
        lastRunAt, ran, warned := MaybeRunScheduledSync(ticks[i], lastRunAt, default);
        if ran {
          runs := runs + [i];
        }
        if warned {
          warnings := warnings + [i];
        }
      }
    }
    assert ticks[..|ticks|] == ticks;
  }

  /** Failures count as runs: the loop runs exactly the ticks of Runs, which does not know how any sync
      ends, and logs exactly those of them whose sync raised. */
  lemma {:induction false} FailuresCountAsRuns(ticks: seq<Tick>, default: int)
    ensures LoopAfter(ticks, default).runs == Runs(ticks, default)
    ensures LoopAfter(ticks, default).lastRunAt == LastRunAt(ticks, default)
    ensures forall i :: i in LoopAfter(ticks, default).warnings <==>
      i in Runs(ticks, default) && ticks[i].reading.Configured? && ticks[i].reading.sync.Raised?
  {
    if ticks != [] {
      var n := |ticks| - 1;
      FailuresCountAsRuns(ticks[..n], default);
      RunsSnoc(ticks, n, default);
      assert ticks[..n + 1] == ticks;
    }
  }

  ghost predicate ClockOk(ticks: seq<Tick>) {
    forall i, j :: 0 <= i < j < |ticks| ==> ticks[i].now <= ticks[j].now
  }

  /** A tick may run: syncing is enabled and every earlier run is at least the interval just read ago. */
  ghost predicate Due(ticks: seq<Tick>, i: int, default: int)
    requires 0 <= i < |ticks|
  {
    && IntervalAt(ticks[i], default) > 0
    && forall p :: p in Runs(ticks, default) && p < i ==> LongAgo(ticks, p, i, default)
  }

  predicate LongAgo(ticks: seq<Tick>, p: nat, i: nat, default: int)
    requires p < i < |ticks|
  {
    ticks[i].now - ticks[p].now >= IntervalAt(ticks[i], default) as real
  }

  ghost predicate Ascending(runs: seq<nat>) {
    forall p, q :: 0 <= p < q < |runs| ==> runs[p] < runs[q]
  }

  lemma {:induction false} RunsAscend(ticks: seq<Tick>, default: int)
    ensures Ascending(Runs(ticks, default))
  {
    if ticks != [] {
      var before := Runs(ticks[..|ticks| - 1], default);
      RunsAscend(ticks[..|ticks| - 1], default);
      assert forall p :: 0 <= p < |before| ==> before[p] < |ticks| - 1;
    }
  }

  /** The last tick leaves the earlier runs alone. */
  lemma {:induction false} EarlierRuns(ticks: seq<Tick>, default: int, p: nat)
    requires ticks != [] && p < |ticks| - 1
    ensures p in Runs(ticks[..|ticks| - 1], default) <==> p in Runs(ticks, default)
  {
    var n := |ticks| - 1;
    assert Runs(ticks, default) == Runs(ticks[..n], default) + [n] || Runs(ticks, default) == Runs(ticks[..n], default);
  }

  /** With an ascending list of runs and a non-decreasing clock, the latest run decides. */
  lemma LatestRunDecides(ticks: seq<Tick>, runs: seq<nat>, i: nat, default: int)
    requires ClockOk(ticks) && i < |ticks| && Ascending(runs) && runs != [] && runs[|runs| - 1] < i
    ensures (forall p :: p in runs && p < i ==> LongAgo(ticks, p, i, default))
        <==> LongAgo(ticks, runs[|runs| - 1], i, default)
  {
    var last := runs[|runs| - 1];
    assert last in runs;
    forall p | p in runs && p < i
      ensures ticks[p].now <= ticks[last].now
    {
      var q :| 0 <= q < |runs| && runs[q] == p;
      assert q < |runs| - 1 ==> p < last;
    }
  }

  /** The last tick runs exactly when it is due. */
  lemma {:induction false} LastTickRunsWhenDue(ticks: seq<Tick>, default: int)
    requires ClockOk(ticks) && ticks != []
    ensures (|ticks| - 1) in Runs(ticks, default) <==> Due(ticks, |ticks| - 1, default)
  {
    var n := |ticks| - 1;
    var before := Runs(ticks[..n], default);
    forall p: nat | p < n
      ensures p in before <==> p in Runs(ticks, default)
    {
      EarlierRuns(ticks, default, p);
    }
    if before != [] {
      RunsAscend(ticks[..n], default);
      LatestRunDecides(ticks, before, n, default);
    }
    assert n !in before;
  }

  lemma {:induction false} DueInPrefix(ticks: seq<Tick>, default: int, i: nat)
    requires i < |ticks| - 1
    ensures Due(ticks[..|ticks| - 1], i, default) <==> Due(ticks, i, default)
  {
    var n := |ticks| - 1;
    forall p: nat | p < i
      ensures p in Runs(ticks[..n], default) <==> p in Runs(ticks, default)
      ensures LongAgo(ticks[..n], p, i, default) <==> LongAgo(ticks, p, i, default)
    {
      EarlierRuns(ticks, default, p);
    }
  }

  /** Exactly the due ticks run: so runs keep the interval read at the later one, a non-positive
      interval never runs, and no enabled tick that is due is missed. */
  lemma {:induction false} RunsExactlyWhenDue(ticks: seq<Tick>, default: int, i: nat)
    requires ClockOk(ticks) && i < |ticks|
    ensures i in Runs(ticks, default) <==> Due(ticks, i, default)
    decreases |ticks|
  {
    var n := |ticks| - 1;
    if i == n {
      LastTickRunsWhenDue(ticks, default);
    } else {
      RunsExactlyWhenDue(ticks[..n], default, i);
      EarlierRuns(ticks, default, i);
      DueInPrefix(ticks, default, i);
    }
  }

  /** All runs before tick i are at least this long ago. */
  ghost predicate RunsAgo(ticks: seq<Tick>, i: int, default: int, interval: int)
    requires 0 <= i < |ticks|
  {
    forall p :: p in Runs(ticks, default) && p < i ==> ticks[i].now - ticks[p].now >= interval as real
  }

  /** Which ticks run, by what they read: the interval saved in the dashboard decides, zero included,
      and only without one the default of the environment; without a config row nothing runs. */
  lemma {:induction false} RunsByReading(ticks: seq<Tick>, default: int, i: nat)
    requires ClockOk(ticks) && i < |ticks|
    ensures match ticks[i].reading
      case Configured(Some(v), _) => i in Runs(ticks, default) <==> v > 0 && RunsAgo(ticks, i, default, v)
      case Configured(None, _) => i in Runs(ticks, default) <==> default > 0 && RunsAgo(ticks, i, default, default)
      case NoConfig => i !in Runs(ticks, default)
      case Unreadable => i !in Runs(ticks, default)
  {
    RunsExactlyWhenDue(ticks, default, i);
    forall p | p in Runs(ticks, default) && p < i
      ensures LongAgo(ticks, p, i, default) <==> ticks[i].now - ticks[p].now >= IntervalAt(ticks[i], default) as real
    {
    }
  }

  /** The time of the p-th run. */
  ghost function RunTime(ticks: seq<Tick>, default: int, p: nat): real
    requires p < |Runs(ticks, default)|
  {
    ticks[Runs(ticks, default)[p]].now
  }

  ghost predicate IntervalsAtLeast(ticks: seq<Tick>, default: int, least: real) {
    forall tick <- ticks :: tick.reading.Configured? ==>
      match tick.reading.override
      case Some(v) => v > 0 ==> v as real >= least
      case None => default > 0 ==> default as real >= least
  }

  lemma {:induction false} AdjacentRuns(ticks: seq<Tick>, default: int, p: nat)
    requires ClockOk(ticks) && p + 1 < |Runs(ticks, default)|
    ensures var i := Runs(ticks, default)[p + 1];
      && IntervalAt(ticks[i], default) > 0
      && RunTime(ticks, default, p + 1) - RunTime(ticks, default, p) >= IntervalAt(ticks[i], default) as real
  {
    var runs := Runs(ticks, default);
    RunsAscend(ticks, default);
    RunsExactlyWhenDue(ticks, default, runs[p + 1]);
    assert runs[p] in runs && runs[p + 1] in runs && runs[p] < runs[p + 1];
    assert LongAgo(ticks, runs[p], runs[p + 1], default);
  }

  lemma {:induction false} RunGap(ticks: seq<Tick>, default: int, least: real, p: nat)
    requires ClockOk(ticks) && p + 1 < |Runs(ticks, default)| && IntervalsAtLeast(ticks, default, least)
    ensures RunTime(ticks, default, p + 1) >= RunTime(ticks, default, p) + least
  {
    AdjacentRuns(ticks, default, p);
    assert ticks[Runs(ticks, default)[p + 1]] in ticks;
  }

  /** count intervals of the given length. */
  ghost function Span(count: nat, least: real): real {
    if count == 0 then 0.0 else Span(count - 1, least) + least
  }

  lemma {:induction false} SpanIsProduct(count: nat, least: real)
    ensures Span(count, least) == count as real * least
  {
    if count > 0 {
      SpanIsProduct(count - 1, least);
      var before := (count - 1) as real;
      assert count as real == before + 1.0;
      assert (before + 1.0) * least == before * least + least;
    }
  }

  lemma {:induction false} GapsAddUp(times: seq<real>, least: real, p: nat, count: nat)
    requires p + count < |times|
    requires forall i :: 0 <= i < |times| - 1 ==> times[i + 1] >= times[i] + least
    ensures times[p + count] >= times[p] + Span(count, least)
  {
    if count > 0 {
      GapsAddUp(times, least, p, count - 1);
      var last := p + (count - 1);
      assert times[last + 1] >= times[last] + least;
    }
  }

  lemma {:induction false} CountWithin(count: nat, least: real, horizon: real)
    requires least > 0.0 && Span(count, least) <= horizon
    ensures count <= (horizon / least).Floor
  {
    SpanIsProduct(count, least);
    assert (horizon / least - count as real) * least >= 0.0;
    assert horizon / least >= count as real;
  }

  lemma {:induction false} RunsSpread(ticks: seq<Tick>, default: int, least: real, p: nat, q: nat)
    requires ClockOk(ticks) && p <= q < |Runs(ticks, default)| && IntervalsAtLeast(ticks, default, least)
    ensures RunTime(ticks, default, q) >= RunTime(ticks, default, p) + Span(q - p, least)
  {
    var runs := Runs(ticks, default);
    var times := seq(|runs|, i requires 0 <= i < |runs| => ticks[runs[i]].now);
    forall i | 0 <= i < |times| - 1
      ensures times[i + 1] >= times[i] + least
    {
      RunGap(ticks, default, least, i);
    }
    GapsAddUp(times, least, p, q - p);
  }

  /** At most H / I + 1 runs fall within a horizon H when every positive interval is at least I > 0. */
  lemma {:induction false} RunCountBound(ticks: seq<Tick>, default: int, least: real, horizon: real, p: nat, q: nat)
    requires ClockOk(ticks) && least > 0.0 && p <= q < |Runs(ticks, default)|
    requires IntervalsAtLeast(ticks, default, least)
    requires RunTime(ticks, default, q) - RunTime(ticks, default, p) <= horizon
    ensures q - p + 1 <= (horizon / least).Floor + 1
  {
    RunsSpread(ticks, default, least, p, q);
    CountWithin(q - p, least, horizon);
  }
}
