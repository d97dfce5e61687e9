/** The login endpoint as a protocol over the shared limiter: backend/app/routers/auth.py, login.
    It runs in a threadpool, so other logins interleave between its separate limiter calls. The
    user lookup and the password check touch no limiter state; their outcome is the input `ok`. */
module Login {
  import opened RateLimiter

  function IpKey(host: string): string {
    "ip:" + host
  }

  /** `user` is the user name already lower-cased. */
  function UsernameKey(user: string): string {
    "username:" + user
  }

  lemma KeysDiffer(host: string, user: string)
    ensures IpKey(host) != UsernameKey(user)
  {
    assert IpKey(host)[0] != UsernameKey(user)[0];
  }

  /** Every address and every user name has a key of its own. */
  lemma KeysAreInjective(a: string, b: string)
    ensures IpKey(a) == IpKey(b) <==> a == b
    ensures UsernameKey(a) == UsernameKey(b) <==> a == b
  {
    assert IpKey(a)[3..] == a && IpKey(b)[3..] == b;
    assert UsernameKey(a)[9..] == a && UsernameKey(b)[9..] == b;
  }

  /** Where a worker thread stands in `login`. */
  datatype Phase =
    | Idle
    | IpPassed(host: string, user: string)
    | BothPassed(host: string, user: string)
    | IpRecorded(host: string, user: string)
    | IpCleared(host: string, user: string)

  datatype Limits = Limits(maxAttempts: int, window: real)

  datatype Server = Server(attempts: Attempts, slots: seq<Phase>)

  /** The next limiter call of one worker; host and user are those of a login that starts here. */
  datatype Tick = Tick(slot: nat, now: real, host: string, user: string, ok: bool)

  function CallOf(phase: Phase, tick: Tick): Call {
    match phase
    case Idle => IsBlocked(tick.now, IpKey(tick.host))
    case IpPassed(_, user) => IsBlocked(tick.now, UsernameKey(user))
    case BothPassed(host, _) =>
      if tick.ok then Reset(tick.now, IpKey(host)) else RecordFailure(tick.now, IpKey(host))
    case IpRecorded(_, user) => RecordFailure(tick.now, UsernameKey(user))
    case IpCleared(_, user) => Reset(tick.now, UsernameKey(user))
  }

  function NextPhase(phase: Phase, tick: Tick, blocked: bool): Phase {
    match phase
    case Idle => if blocked then Idle else IpPassed(tick.host, tick.user)
    case IpPassed(host, user) => if blocked then Idle else BothPassed(host, user)
    case BothPassed(host, user) => if tick.ok then IpCleared(host, user) else IpRecorded(host, user)
    case IpRecorded(_, _) => Idle
    case IpCleared(_, _) => Idle
  }

  function Blocked(attempts: Attempts, key: string, now: real, limits: Limits): bool {
    |Fresh(TimesOf(attempts, key), now - limits.window)| >= limits.maxAttempts
  }

  function Step(server: Server, tick: Tick, limits: Limits): Server
    requires tick.slot < |server.slots|
  {
    var phase := server.slots[tick.slot];
    var call := CallOf(phase, tick);
    var blocked := call.IsBlocked? && Blocked(server.attempts, call.key, tick.now, limits);
    Server(Apply(server.attempts, call, limits.window), server.slots[tick.slot := NextPhase(phase, tick, blocked)])
  }

  predicate SlotsBelow(ticks: seq<Tick>, n: nat) {
    forall tick <- ticks :: tick.slot < n
  }

  function StepAll(server: Server, ticks: seq<Tick>, limits: Limits): (s: Server)
    requires SlotsBelow(ticks, |server.slots|)
    ensures |s.slots| == |server.slots|
  {
    if ticks == [] then server
    else Step(StepAll(server, ticks[..|ticks| - 1], limits), ticks[|ticks| - 1], limits)
  }

  /** A fresh process with n workers. */
  function Boot(n: nat): Server {
    Server(map[], seq(n, _ => Idle))
  }

  /** The limiter calls an interleaving makes, in order. */
  function Calls(n: nat, ticks: seq<Tick>, limits: Limits): (calls: seq<Call>)
    requires SlotsBelow(ticks, n)
    ensures |calls| == |ticks|
  {
    if ticks == [] then []
    else
      var k := |ticks| - 1;
      var before := StepAll(Boot(n), ticks[..k], limits);
      Calls(n, ticks[..k], limits) + [CallOf(before.slots[ticks[k].slot], ticks[k])]
  }

  ghost predicate ClockOk(ticks: seq<Tick>) {
    forall i, j :: 0 <= i < j < |ticks| ==> ticks[i].now <= ticks[j].now
  }

  lemma {:induction false} RunSnoc(calls: seq<Call>, call: Call, window: real)
    ensures Run(calls + [call], window) == Apply(Run(calls, window), call, window)
  {
    assert (calls + [call])[..|calls|] == calls;
  }

  /** What the server holds is what the limiter calls leave. */
  lemma {:induction false} CallsFollow(n: nat, ticks: seq<Tick>, limits: Limits)
    requires SlotsBelow(ticks, n)
    ensures StepAll(Boot(n), ticks, limits).attempts == Run(Calls(n, ticks, limits), limits.window)
  {
    if ticks != [] {
      var k := |ticks| - 1;
      CallsFollow(n, ticks[..k], limits);
      var before := StepAll(Boot(n), ticks[..k], limits);
      RunSnoc(Calls(n, ticks[..k], limits), CallOf(before.slots[ticks[k].slot], ticks[k]), limits.window);
    }
  }

  lemma CallTime(phase: Phase, tick: Tick)
    ensures CallOf(phase, tick).now == tick.now
  {
  }

  lemma {:induction false} CallTimes(n: nat, ticks: seq<Tick>, limits: Limits, i: nat)
    requires SlotsBelow(ticks, n) && i < |ticks|
    ensures Calls(n, ticks, limits)[i].now == ticks[i].now
    decreases |ticks|
  {
    var k := |ticks| - 1;
    if i < k {
      CallTimes(n, ticks[..k], limits, i);
    } else {
      CallTime(StepAll(Boot(n), ticks[..k], limits).slots[ticks[k].slot], ticks[k]);
    }
  }

  // ---------- the endpoint ----------

  /** `is_blocked(ip_key) or is_blocked(username_key)`: the second is not asked when the first holds. */
  function CheckEffect(attempts: Attempts, ipKey: string, usernameKey: string, t0: real, t1: real, limits: Limits)
    : (Attempts, bool)
  {
    var checked := Apply(attempts, IsBlocked(t0, ipKey), limits.window);
    if Blocked(attempts, ipKey, t0, limits) then (checked, true)
    else (Apply(checked, IsBlocked(t1, usernameKey), limits.window), Blocked(checked, usernameKey, t1, limits))
  }

  /** What a login that was let through leaves behind. */
  function OutcomeEffect(attempts: Attempts, ipKey: string, usernameKey: string, t2: real, t3: real, ok: bool,
                         window: real)
    : Attempts
  {
    if ok then Apply(Apply(attempts, Reset(t2, ipKey), window), Reset(t3, usernameKey), window)
    else Apply(Apply(attempts, RecordFailure(t2, ipKey), window), RecordFailure(t3, usernameKey), window)
  }

  /** What one login with nobody in between does to the limiter, and its status code. */
  function LoginEffect(attempts: Attempts, host: string, user: string, clock: seq<real>, ok: bool, limits: Limits)
    : (Attempts, int)
    requires |clock| == 4
  {
    var (checked, blocked) := CheckEffect(attempts, IpKey(host), UsernameKey(user), clock[0], clock[1], limits);
    if blocked then (checked, 429)
    else
      (OutcomeEffect(checked, IpKey(host), UsernameKey(user), clock[2], clock[3], ok, limits.window),
       if ok then 200 else 401)
  }

  method CheckLimits(limiter: LoginRateLimiter, ipKey: string, usernameKey: string, t0: real, t1: real)
    returns (blocked: bool)
    modifies limiter
    ensures (limiter.attempts, blocked) == CheckEffect(old(limiter.attempts), ipKey, usernameKey, t0, t1,
                                                       Limits(limiter.maxAttempts, limiter.windowSeconds))
  {
    blocked := limiter.IsBlocked(ipKey, t0);
    if !blocked {
      blocked := limiter.IsBlocked(usernameKey, t1);
    }
  }

  method Login(limiter: LoginRateLimiter, host: string, user: string, clock: seq<real>, ok: bool)
    returns (status: int)
    requires |clock| == 4
    modifies limiter
    ensures (limiter.attempts, status) == LoginEffect(old(limiter.attempts), host, user, clock, ok,
                                                      Limits(limiter.maxAttempts, limiter.windowSeconds))
  {
    var ipKey, usernameKey := IpKey(host), UsernameKey(user);
    var blocked := CheckLimits(limiter, ipKey, usernameKey, clock[0], clock[1]);
    if blocked {
      return 429;
    }
    ghost var checked := limiter.attempts;
    if !ok {
      limiter.RecordFailure(ipKey, clock[2]);
      limiter.RecordFailure(usernameKey, clock[3]);
      assert limiter.attempts == OutcomeEffect(checked, ipKey, usernameKey, clock[2], clock[3], ok, limiter.windowSeconds);
      return 401;
    }
    limiter.Reset(ipKey);
    limiter.Reset(usernameKey);
    assert limiter.attempts == OutcomeEffect(checked, ipKey, usernameKey, clock[2], clock[3], ok, limiter.windowSeconds);
    return 200;
  }

  /** A login is refused exactly when either key is over the limit; a successful one forgets the
      failures of both keys and touches no other. */
  lemma LoginOutcome(attempts: Attempts, host: string, user: string, clock: seq<real>, ok: bool, limits: Limits)
    requires |clock| == 4
    ensures var (after, status) := LoginEffect(attempts, host, user, clock, ok, limits);
      var blocked := Blocked(attempts, IpKey(host), clock[0], limits)
                  || Blocked(attempts, UsernameKey(user), clock[1], limits);
      && status == (if blocked then 429 else if ok then 200 else 401)
      && (status == 200 ==> after == attempts - {IpKey(host), UsernameKey(user)})
  {
    KeysDiffer(host, user);
    ChecksThenResets(attempts, IpKey(host), UsernameKey(user), clock[0], clock[1], limits.window);
  }

  lemma ChecksThenResets(attempts: Attempts, ipKey: string, usernameKey: string, t0: real, t1: real, window: real)
    requires ipKey != usernameKey
    ensures var a := Pruned(attempts, ipKey, t0 - window);
      && TimesOf(a, usernameKey) == TimesOf(attempts, usernameKey)
      && Pruned(a, usernameKey, t1 - window) - {ipKey} - {usernameKey} == attempts - {ipKey, usernameKey}
  {
  }

  /** The single worker of a server is in `phase` after the given ticks. */
  ghost predicate Reaches(start: Attempts, ticks: seq<Tick>, limits: Limits, attempts: Attempts, phase: Phase) {
    SlotsBelow(ticks, 1) && StepAll(Server(start, [Idle]), ticks, limits) == Server(attempts, [phase])
  }

  /** One more call of that worker. */
  lemma SingleStep(start: Attempts, ticks: seq<Tick>, tick: Tick, limits: Limits, attempts: Attempts, phase: Phase)
    requires tick.slot == 0 && Reaches(start, ticks, limits, attempts, phase)
    ensures var call := CallOf(phase, tick);
      var blocked := call.IsBlocked? && Blocked(attempts, call.key, tick.now, limits);
      Reaches(start, ticks + [tick], limits, Apply(attempts, call, limits.window), NextPhase(phase, tick, blocked))
  {
    assert (ticks + [tick])[..|ticks|] == ticks;
    assert forall p: Phase :: [phase][0 := p] == [p];
  }

  /** The limiter calls of one login, should it make them all. */
  function LoginTicks(host: string, user: string, clock: seq<real>, ok: bool): seq<Tick> {
    seq(|clock|, i requires 0 <= i < |clock| => Tick(0, clock[i], host, user, ok))
  }

  /** How many of its calls a login makes. */
  function CallsMade(attempts: Attempts, host: string, user: string, clock: seq<real>, limits: Limits): (n: nat)
    requires |clock| == 4
    ensures n <= 4
  {
    if Blocked(attempts, IpKey(host), clock[0], limits) then 1
    else if CheckEffect(attempts, IpKey(host), UsernameKey(user), clock[0], clock[1], limits).1 then 2
    else 4
  }

  /** The two checks as calls of a worker, from idle. */
  lemma ChecksAreSerial(start: Attempts, ticks: seq<Tick>, attempts: Attempts, host: string, user: string,
                        clock: seq<real>, ok: bool, limits: Limits)
    requires |clock| == 4 && Reaches(start, ticks, limits, attempts, Idle)
    requires !Blocked(attempts, IpKey(host), clock[0], limits)
    ensures var (checked, blocked) := CheckEffect(attempts, IpKey(host), UsernameKey(user), clock[0], clock[1], limits);
      Reaches(start, ticks + LoginTicks(host, user, clock, ok)[..2], limits, checked,
              if blocked then Idle else BothPassed(host, user))
  {
    var all := LoginTicks(host, user, clock, ok);
    var passed := Apply(attempts, IsBlocked(clock[0], IpKey(host)), limits.window);
    SingleStep(start, ticks, all[0], limits, attempts, Idle);
    SingleStep(start, ticks + [all[0]], all[1], limits, passed, IpPassed(host, user));
    assert ticks + [all[0]] + [all[1]] == ticks + all[..2];
  }

  /** The two records or the two resets, from the passed checks back to idle. */
  lemma OutcomeIsSerial(start: Attempts, ticks: seq<Tick>, attempts: Attempts, host: string, user: string,
                        clock: seq<real>, ok: bool, limits: Limits)
    requires |clock| == 4 && Reaches(start, ticks, limits, attempts, BothPassed(host, user))
    ensures Reaches(start, ticks + LoginTicks(host, user, clock, ok)[2..], limits,
      OutcomeEffect(attempts, IpKey(host), UsernameKey(user), clock[2], clock[3], ok, limits.window), Idle)
  {
    var all := LoginTicks(host, user, clock, ok);
    var both, half := BothPassed(host, user), if ok then IpCleared(host, user) else IpRecorded(host, user);
    SingleStep(start, ticks, all[2], limits, attempts, both);
    SingleStep(start, ticks + [all[2]], all[3], limits,
               Apply(attempts, CallOf(both, all[2]), limits.window), half);
    assert ticks + [all[2]] + [all[3]] == ticks + all[2..];
  }

  /** One login of the method Login is what a worker that is alone does with exactly this login's clock
      readings, names and outcome, from idle to idle. */
  lemma {:induction false} LoginIsSerialRun(start: Attempts, ticks: seq<Tick>, attempts: Attempts, host: string,
                                            user: string, clock: seq<real>, ok: bool, limits: Limits)
    requires |clock| == 4 && Reaches(start, ticks, limits, attempts, Idle)
    ensures Reaches(start, ticks + LoginTicks(host, user, clock, ok)[..CallsMade(attempts, host, user, clock, limits)],
                    limits, LoginEffect(attempts, host, user, clock, ok, limits).0, Idle)
  {
    var all, n := LoginTicks(host, user, clock, ok), CallsMade(attempts, host, user, clock, limits);
    if n == 1 {
      SingleStep(start, ticks, all[0], limits, attempts, Idle);
      assert all[..1] == [all[0]];
    } else {
      ChecksAreSerial(start, ticks, attempts, host, user, clock, ok, limits);
      if n == 4 {
        var checked := CheckEffect(attempts, IpKey(host), UsernameKey(user), clock[0], clock[1], limits).0;
        OutcomeIsSerial(start, ticks + all[..2], checked, host, user, clock, ok, limits);
        assert ticks + all[..2] + all[2..] == ticks + all[..4];
      }
    }
  }

  /** One call of the endpoint, with the four clock readings it can take. */
  datatype Request = Request(host: string, user: string, clock: seq<real>, ok: bool)

  /** What logins one after the other leave in a fresh limiter. */
  function AfterLogins(logins: seq<Request>, limits: Limits): Attempts
    requires forall login <- logins :: |login.clock| == 4
  {
    if logins == [] then map[]
    else
      var last := logins[|logins| - 1];
      LoginEffect(AfterLogins(logins[..|logins| - 1], limits), last.host, last.user, last.clock, last.ok, limits).0
  }

  ghost predicate Readings(clock: seq<real>) {
    |clock| == 4 && clock[0] <= clock[1] <= clock[2] <= clock[3]
  }

  /** The clock never goes back, within a login and from one login to the next. */
  ghost predicate LoginClockOk(logins: seq<Request>) {
    && (forall login <- logins :: Readings(login.clock))
    && (forall i, j :: 0 <= i < j < |logins| ==> logins[i].clock[3] <= logins[j].clock[0])
  }

  ghost predicate NoLaterThan(ticks: seq<Tick>, now: real) {
    forall tick <- ticks :: tick.now <= now
  }

  lemma {:induction false} ClockSnoc(ticks: seq<Tick>, tick: Tick, now: real)
    requires ClockOk(ticks) && NoLaterThan(ticks, tick.now) && tick.now <= now
    ensures ClockOk(ticks + [tick]) && NoLaterThan(ticks + [tick], now)
  {
    assert forall i :: 0 <= i < |ticks| ==> ticks[i] in ticks;
  }

  lemma {:induction false} ClockContinues(ticks: seq<Tick>, host: string, user: string, clock: seq<real>, ok: bool,
                                          n: nat, now: real)
    requires ClockOk(ticks) && Readings(clock) && n <= 4 && NoLaterThan(ticks, clock[0])
    requires clock[if n == 0 then 0 else n - 1] <= now
    ensures ClockOk(ticks + LoginTicks(host, user, clock, ok)[..n])
    ensures NoLaterThan(ticks + LoginTicks(host, user, clock, ok)[..n], now)
    decreases n
  {
    var all := LoginTicks(host, user, clock, ok);
    if n == 0 {
      assert ticks + all[..0] == ticks;
    } else {
      ClockContinues(ticks, host, user, clock, ok, n - 1, clock[n - 1]);
      ClockSnoc(ticks + all[..n - 1], all[n - 1], now);
      assert ticks + all[..n - 1] + [all[n - 1]] == ticks + all[..n];
    }
  }

  lemma {:induction false} LoginsAreSerialRun(logins: seq<Request>, limits: Limits,
                                              now: real) returns (ticks: seq<Tick>)
    requires LoginClockOk(logins) && (logins != [] ==> logins[|logins| - 1].clock[3] <= now)
    ensures Reaches(map[], ticks, limits, AfterLogins(logins, limits), Idle)
    ensures ClockOk(ticks) && NoLaterThan(ticks, now)
  {
    if logins == [] {
      return [];
    }
    var n := |logins| - 1;
    var last := logins[n];
    assert n > 0 ==> logins[n - 1].clock[3] <= last.clock[0];
    var before := AfterLogins(logins[..n], limits);
    var made := CallsMade(before, last.host, last.user, last.clock, limits);
    ticks := LoginsAreSerialRun(logins[..n], limits, last.clock[0]);
    LoginIsSerialRun(map[], ticks, before, last.host, last.user, last.clock, last.ok, limits);
    ClockContinues(ticks, last.host, last.user, last.clock, last.ok, made, now);
    ticks := ticks + LoginTicks(last.host, last.user, last.clock, last.ok)[..made];
  }

  // ---------- the concurrent bound ----------

  /** 1 when a worker in this phase may still record a failure for the key without checking it again. */
  function Owes(phase: Phase, key: string): nat {
    match phase
    case Idle => 0
    case IpPassed(host, _) => if key == IpKey(host) then 1 else 0
    case BothPassed(host, user) => if key == IpKey(host) || key == UsernameKey(user) then 1 else 0
    case IpRecorded(_, user) => if key == UsernameKey(user) then 1 else 0
    case IpCleared(_, _) => 0
  }

  function Owed(slots: seq<Phase>, key: string): nat {
    if slots == [] then 0 else Owed(slots[..|slots| - 1], key) + Owes(slots[|slots| - 1], key)
  }

  lemma {:induction false} OwedUpdate(slots: seq<Phase>, i: nat, phase: Phase, key: string)
    requires i < |slots|
    ensures Owed(slots[i := phase], key) == Owed(slots, key) - Owes(slots[i], key) + Owes(phase, key)
    ensures Owed(slots, key) <= |slots| && Owes(slots[i], key) <= Owed(slots, key)
  {
    var n := |slots| - 1;
    if i < n {
      OwedUpdate(slots[..n], i, phase, key);
      assert slots[i := phase][..n] == slots[..n][i := phase];
    } else {
      assert slots[i := phase][..n] == slots[..n];
      OwedAtMost(slots[..n], key);
    }
  }

  lemma {:induction false} OwedAtMost(slots: seq<Phase>, key: string)
    ensures Owed(slots, key) <= |slots|
  {
    if slots != [] {
      OwedAtMost(slots[..|slots| - 1], key);
    }
  }

  function Limit(maxAttempts: int, n: nat): int {
    if maxAttempts <= 0 then 0 else maxAttempts + n - 1
  }

  ghost function Count(attempts: Attempts, key: string, cutoff: real): nat {
    |Fresh(TimesOf(attempts, key), cutoff)|
  }

  predicate Records(call: Call, key: string) {
    call.RecordFailure? && call.key == key
  }

  predicate Checks(call: Call, key: string) {
    call.IsBlocked? && call.key == key
  }

  lemma ApplyCount(attempts: Attempts, call: Call, window: real, key: string)
    ensures Count(Apply(attempts, call, window), key, call.now - window)
         <= Count(attempts, key, call.now - window) + if Records(call, key) then 1 else 0
    ensures Checks(call, key)
        ==> Count(Apply(attempts, call, window), key, call.now - window) == Count(attempts, key, call.now - window)
  {
    var times, cutoff := TimesOf(attempts, key), call.now - window;
    ApplyRemembers(attempts, call, window, key, cutoff);
    FreshAppend(times, call.now, cutoff);
  }

  /** A worker pays what it owes: only a check that lets it pass makes it owe more. */
  lemma PhaseBalance(phase: Phase, tick: Tick, blocked: bool, key: string)
    ensures var call := CallOf(phase, tick);
      || (Checks(call, key) && !blocked)
      || Owes(NextPhase(phase, tick, blocked), key) + (if Records(call, key) then 1 else 0) <= Owes(phase, key)
  {
    if !phase.Idle? {
      KeysDiffer(phase.host, phase.user);
    }
  }

  /** Failures in the window plus failures still owed. */
  ghost predicate Bounded(server: Server, limits: Limits, key: string, cutoff: real) {
    Count(server.attempts, key, cutoff) + Owed(server.slots, key) <= Limit(limits.maxAttempts, |server.slots|)
  }

  /** A worker that passes a check: fewer than max_attempts in the window, at most n owed. */
  lemma PassKeepsBound(attempts: Attempts, call: Call, slots: seq<Phase>, limits: Limits, key: string)
    requires Checks(call, key) && !Blocked(attempts, key, call.now, limits)
    ensures Bounded(Server(Apply(attempts, call, limits.window), slots), limits, key, call.now - limits.window)
  {
    ApplyCount(attempts, call, limits.window, key);
    OwedAtMost(slots, key);
  }

  /** Any other step moves at most what was owed into the window. */
  lemma PayKeepsBound(server: Server, call: Call, limits: Limits, i: nat, next: Phase, key: string)
    requires i < |server.slots| && Bounded(server, limits, key, call.now - limits.window)
    requires Owes(next, key) + (if Records(call, key) then 1 else 0) <= Owes(server.slots[i], key)
    ensures Bounded(Server(Apply(server.attempts, call, limits.window), server.slots[i := next]), limits, key,
                    call.now - limits.window)
  {
    ApplyCount(server.attempts, call, limits.window, key);
    OwedUpdate(server.slots, i, next, key);
  }

  lemma StepKeepsBound(server: Server, tick: Tick, limits: Limits, key: string)
    requires tick.slot < |server.slots| && Bounded(server, limits, key, tick.now - limits.window)
    ensures Bounded(Step(server, tick, limits), limits, key, tick.now - limits.window)
  {
    var phase := server.slots[tick.slot];
    var call := CallOf(phase, tick);
    var blocked := call.IsBlocked? && Blocked(server.attempts, call.key, tick.now, limits);
    var next := NextPhase(phase, tick, blocked);
    CallTime(phase, tick);
    if Checks(call, key) && !blocked {
      PassKeepsBound(server.attempts, call, server.slots[tick.slot := next], limits, key);
    } else {
      PhaseBalance(phase, tick, blocked, key);
      PayKeepsBound(server, call, limits, tick.slot, next, key);
    }
  }

  /** The window only moves forward. */
  lemma BoundedLater(server: Server, limits: Limits, key: string, early: real, late: real)
    requires early <= late && Bounded(server, limits, key, early)
    ensures Bounded(server, limits, key, late)
  {
    FreshTwice(TimesOf(server.attempts, key), early, late);
  }

  lemma {:induction false} RunKeepsBound(n: nat, ticks: seq<Tick>, limits: Limits, key: string, cutoff: real)
    requires SlotsBelow(ticks, n) && ClockOk(ticks)
    requires ticks != [] ==> ticks[|ticks| - 1].now - limits.window <= cutoff
    ensures Bounded(StepAll(Boot(n), ticks, limits), limits, key, cutoff)
  {
    if ticks == [] {
      NobodyOwes(n, key);
    } else {
      var k := |ticks| - 1;
      var before, at := StepAll(Boot(n), ticks[..k], limits), ticks[k].now - limits.window;
      assert k > 0 ==> ticks[k - 1].now <= ticks[k].now;
      RunKeepsBound(n, ticks[..k], limits, key, at);
      StepKeepsBound(before, ticks[k], limits, key);
      BoundedLater(Step(before, ticks[k], limits), limits, key, at, cutoff);
    }
  }

  lemma {:induction false} NobodyOwes(n: nat, key: string)
    ensures Owed(Boot(n).slots, key) == 0
  {
    if n > 0 {
      NobodyOwes(n - 1, key);
      assert Boot(n).slots[..n - 1] == Boot(n - 1).slots;
    }
  }

  /** The failures recorded for a key inside the window since its last reset, counted over everything
      the run has recorded. */
  ghost function Failures(n: nat, ticks: seq<Tick>, limits: Limits, key: string, now: real): nat
    requires SlotsBelow(ticks, n)
  {
    |InWindow(History(Calls(n, ticks, limits), key), now - limits.window)|
  }

  /** With n logins in flight, no interleaving records more than max_attempts + n - 1 failures for a
      key inside the window since its last reset; a limit of zero or less records none. */
  lemma {:induction false} ConcurrentBound(n: nat, ticks: seq<Tick>, limits: Limits, key: string, now: real)
    requires SlotsBelow(ticks, n) && ClockOk(ticks)
    requires ticks != [] ==> ticks[|ticks| - 1].now <= now
    ensures Failures(n, ticks, limits, key, now) <= Limit(limits.maxAttempts, n)
  {
    HistoryCount(n, ticks, limits, key, now);
    RunKeepsBound(n, ticks, limits, key, now - limits.window);
    BoundedCount(StepAll(Boot(n), ticks, limits), limits, key, now - limits.window);
  }

  lemma BoundedCount(server: Server, limits: Limits, key: string, cutoff: real)
    requires Bounded(server, limits, key, cutoff)
    ensures Count(server.attempts, key, cutoff) <= Limit(limits.maxAttempts, |server.slots|)
  {
  }

  /** The failures in the window since the last reset are what the pruned dict holds. */
  lemma {:induction false} HistoryCount(n: nat, ticks: seq<Tick>, limits: Limits, key: string, now: real)
    requires SlotsBelow(ticks, n) && ClockOk(ticks)
    requires ticks != [] ==> ticks[|ticks| - 1].now <= now
    ensures Failures(n, ticks, limits, key, now)
         == Count(StepAll(Boot(n), ticks, limits).attempts, key, now - limits.window)
  {
    CallsMonotone(n, ticks, limits);
    CallsCount(Calls(n, ticks, limits), limits.window, key, now);
    CallsFollow(n, ticks, limits);
  }

  lemma {:induction false} CallsMonotone(n: nat, ticks: seq<Tick>, limits: Limits)
    requires SlotsBelow(ticks, n) && ClockOk(ticks)
    ensures Monotone(Calls(n, ticks, limits))
    ensures ticks != [] ==> Calls(n, ticks, limits)[|ticks| - 1].now == ticks[|ticks| - 1].now
  {
    forall i | 0 <= i < |ticks|
      ensures Calls(n, ticks, limits)[i].now == ticks[i].now
    {
      CallTimes(n, ticks, limits, i);
    }
  }

  lemma {:induction false} CallsCount(calls: seq<Call>, window: real, key: string, now: real)
    requires Monotone(calls)
    requires calls != [] ==> calls[|calls| - 1].now <= now
    ensures |InWindow(History(calls, key), now - window)| == Count(Run(calls, window), key, now - window)
  {
    PrunedAgrees(calls, window, key, now - window);
    SameFresh(History(calls, key), TimesOf(Run(calls, window), key), now - window);
  }

  lemma {:induction false} SameFresh(history: seq<real>, times: seq<real>, cutoff: real)
    requires Fresh(times, cutoff) == Fresh(history, cutoff)
    ensures |InWindow(history, cutoff)| == |Fresh(times, cutoff)|
  {
    FreshCounts(history, cutoff);
  }

  /** Serial logins stay at max_attempts itself. */
  lemma {:induction false} SerialBound(ticks: seq<Tick>, limits: Limits, key: string, now: real)
    requires SlotsBelow(ticks, 1) && ClockOk(ticks) && limits.maxAttempts >= 1
    requires ticks != [] ==> ticks[|ticks| - 1].now <= now
    ensures Failures(1, ticks, limits, key, now) <= limits.maxAttempts
  {
    ConcurrentBound(1, ticks, limits, key, now);
  }

  /** Hence the endpoint itself, called one login at a time, never lets the limiter hold more than
      max_attempts failures of a key inside the window. */
  lemma {:induction false} SerialLoginsBound(logins: seq<Request>, limits: Limits, key: string, now: real)
    requires LoginClockOk(logins) && limits.maxAttempts >= 1
    requires logins != [] ==> logins[|logins| - 1].clock[3] <= now
    ensures Count(AfterLogins(logins, limits), key, now - limits.window) <= limits.maxAttempts
  {
    var ticks := LoginsAreSerialRun(logins, limits, now);
    ReachedCount(ticks, limits, AfterLogins(logins, limits), key, now);
  }

  lemma {:induction false} ReachedCount(ticks: seq<Tick>, limits: Limits, attempts: Attempts, key: string, now: real)
    requires Reaches(map[], ticks, limits, attempts, Idle) && ClockOk(ticks) && NoLaterThan(ticks, now)
    requires limits.maxAttempts >= 1
    ensures Count(attempts, key, now - limits.window) <= limits.maxAttempts
  {
    var cutoff := now - limits.window;
    assert ticks != [] ==> ticks[|ticks| - 1] in ticks;
    assert Boot(1) == Server(map[], [Idle]);
    RunKeepsBound(1, ticks, limits, key, cutoff);
    BoundedCount(Server(attempts, [Idle]), limits, key, cutoff);
  }

  // ---------- the bound is reached ----------

  function Zeros(k: nat): seq<real> {
    seq(k, _ => 0.0)
  }

  lemma {:induction false} FreshZeros(k: nat, cutoff: real)
    requires cutoff < 0.0
    ensures Fresh(Zeros(k), cutoff) == Zeros(k)
  {
    if k > 0 {
      FreshZeros(k - 1, cutoff);
      assert Zeros(k)[..k - 1] == Zeros(k - 1) && Zeros(k) == Zeros(k - 1) + [0.0];
    }
  }

  /** a failures recorded for the address and b for the user name, all at time zero. */
  ghost predicate Shape(attempts: Attempts, a: nat, b: nat) {
    TimesOf(attempts, IpKey("h")) == Zeros(a) && TimesOf(attempts, UsernameKey("u")) == Zeros(b)
  }

  function FailAt(slot: nat): Tick {
    Tick(slot, 0.0, "h", "u", false)
  }

  /** The phases of a failing login that is not blocked. */
  function NextFail(phase: Phase): Phase {
    match phase
    case Idle => IpPassed("h", "u")
    case IpPassed(_, _) => BothPassed("h", "u")
    case BothPassed(_, _) => IpRecorded("h", "u")
    case IpRecorded(_, _) => Idle
    case IpCleared(_, _) => Idle
  }

  predicate Failing(phase: Phase) {
    phase in {Idle, IpPassed("h", "u"), BothPassed("h", "u"), IpRecorded("h", "u")}
  }

  /** A check or a failure at time zero, seen from one key. */
  lemma ZeroCall(attempts: Attempts, call: Call, window: real, key: string, k: nat)
    requires (call.IsBlocked? || call.RecordFailure?) && call.now == 0.0 && window > 0.0
    requires TimesOf(attempts, key) == Zeros(k)
    ensures TimesOf(Apply(attempts, call, window), key) == Zeros(k + if Records(call, key) then 1 else 0)
  {
    FreshZeros(k, 0.0 - window);
    ApplyEffect(attempts, call, window, key);
    assert Zeros(k) + [0.0] == Zeros(k + 1);
  }

  lemma FailCall(attempts: Attempts, phase: Phase, slot: nat, limits: Limits, a: nat, b: nat)
    requires limits.window > 0.0 && Shape(attempts, a, b) && Failing(phase)
    ensures var call := CallOf(phase, FailAt(slot));
      Shape(Apply(attempts, call, limits.window),
            a + if phase.BothPassed? then 1 else 0, b + if phase.IpRecorded? then 1 else 0)
  {
    var call := CallOf(phase, FailAt(slot));
    KeysDiffer("h", "u");
    ZeroCall(attempts, call, limits.window, IpKey("h"), a);
    ZeroCall(attempts, call, limits.window, UsernameKey("u"), b);
  }

  lemma FailPhase(attempts: Attempts, phase: Phase, slot: nat, limits: Limits, a: nat, b: nat)
    requires limits.window > 0.0 && Shape(attempts, a, b) && Failing(phase)
    requires (phase.Idle? ==> a < limits.maxAttempts) && (phase.IpPassed? ==> b < limits.maxAttempts)
    ensures var call := CallOf(phase, FailAt(slot));
      var blocked := call.IsBlocked? && Blocked(attempts, call.key, 0.0, limits);
      NextPhase(phase, FailAt(slot), blocked) == NextFail(phase)
  {
    FreshZeros(a, 0.0 - limits.window);
    FreshZeros(b, 0.0 - limits.window);
  }

  /** A run at time zero that leaves the given phases and failures. */
  ghost predicate FailRun(n: nat, ticks: seq<Tick>, limits: Limits, slots: seq<Phase>, a: nat, b: nat) {
    && SlotsBelow(ticks, n)
    && (forall tick <- ticks :: tick.now == 0.0)
    && StepAll(Boot(n), ticks, limits).slots == slots
    && Shape(StepAll(Boot(n), ticks, limits).attempts, a, b)
  }

  /** Appends one failing tick to such a run. */
  lemma Extend(n: nat, ticks: seq<Tick>, slot: nat, limits: Limits, slots: seq<Phase>, a: nat, b: nat)
    returns (all: seq<Tick>)
    requires slot < n == |slots| && limits.window > 0.0 && FailRun(n, ticks, limits, slots, a, b)
    requires Failing(slots[slot])
    requires slots[slot].Idle? ==> a < limits.maxAttempts
    requires slots[slot].IpPassed? ==> b < limits.maxAttempts
    ensures FailRun(n, all, limits, slots[slot := NextFail(slots[slot])],
                    a + if slots[slot].BothPassed? then 1 else 0, b + if slots[slot].IpRecorded? then 1 else 0)
  {
    all := ticks + [FailAt(slot)];
    assert all[..|ticks|] == ticks;
    var s := StepAll(Boot(n), ticks, limits);
    FailCall(s.attempts, slots[slot], slot, limits, a, b);
    FailPhase(s.attempts, slots[slot], slot, limits, a, b);
  }

  function Mixed(n: nat, m: nat, done: Phase, rest: Phase): seq<Phase> {
    seq(n, i => if i < m then done else rest)
  }

  /** One whole failing login on the first worker. */
  lemma FailOnce(n: nat, ticks: seq<Tick>, k: nat, limits: Limits, slots: seq<Phase>) returns (all: seq<Tick>)
    requires 1 <= n == |slots| && slots[0].Idle? && limits.window > 0.0 && k < limits.maxAttempts
    requires FailRun(n, ticks, limits, slots, k, k)
    ensures FailRun(n, all, limits, slots, k + 1, k + 1)
  {
    var passed, both, recorded := IpPassed("h", "u"), BothPassed("h", "u"), IpRecorded("h", "u");
    assert slots[0 := passed][0 := both] == slots[0 := both] && slots[0 := both][0 := recorded] == slots[0 := recorded];
    assert slots[0 := recorded][0 := Idle] == slots;
    all := Extend(n, ticks, 0, limits, slots, k, k);
    all := Extend(n, all, 0, limits, slots[0 := passed], k, k);
    all := Extend(n, all, 0, limits, slots[0 := both], k, k);
    all := Extend(n, all, 0, limits, slots[0 := recorded], k + 1, k);
  }

  /** k logins one after the other on the first worker, all failing. */
  lemma {:induction false} FailSerially(n: nat, k: nat, limits: Limits) returns (ticks: seq<Tick>)
    requires n >= 1 && limits.window > 0.0 && k <= limits.maxAttempts
    ensures FailRun(n, ticks, limits, Boot(n).slots, k, k)
  {
    ticks := [];
    if k > 0 {
      ticks := FailSerially(n, k - 1, limits);
      ticks := FailOnce(n, ticks, k - 1, limits, Boot(n).slots);
    }
  }

  /** Then the first m workers pass both checks. */
  lemma {:induction false} EnterTogether(n: nat, m: nat, k: nat, limits: Limits) returns (ticks: seq<Tick>)
    requires 1 <= n && m <= n && limits.window > 0.0 && k < limits.maxAttempts
    ensures FailRun(n, ticks, limits, Mixed(n, m, BothPassed("h", "u"), Idle), k, k)
  {
    if m == 0 {
      ticks := FailSerially(n, k, limits);
      assert Boot(n).slots == Mixed(n, 0, BothPassed("h", "u"), Idle);
    } else {
      var slots := Mixed(n, m - 1, BothPassed("h", "u"), Idle);
      ticks := EnterTogether(n, m - 1, k, limits);
      ticks := Extend(n, ticks, m - 1, limits, slots, k, k);
      ticks := Extend(n, ticks, m - 1, limits, slots[m - 1 := IpPassed("h", "u")], k, k);
      assert slots[m - 1 := IpPassed("h", "u")][m - 1 := BothPassed("h", "u")]
          == Mixed(n, m, BothPassed("h", "u"), Idle);
    }
  }

  /** Then m of them record their failure. */
  lemma {:induction false} RecordTogether(n: nat, m: nat, k: nat, limits: Limits) returns (ticks: seq<Tick>)
    requires 1 <= n && m <= n && limits.window > 0.0 && k < limits.maxAttempts
    ensures FailRun(n, ticks, limits, Mixed(n, m, IpRecorded("h", "u"), BothPassed("h", "u")), k + m, k)
  {
    if m == 0 {
      ticks := EnterTogether(n, n, k, limits);
      assert Mixed(n, n, BothPassed("h", "u"), Idle) == Mixed(n, 0, IpRecorded("h", "u"), BothPassed("h", "u"));
    } else {
      var slots := Mixed(n, m - 1, IpRecorded("h", "u"), BothPassed("h", "u"));
      ticks := RecordTogether(n, m - 1, k, limits);
      ticks := Extend(n, ticks, m - 1, limits, slots, k + m - 1, k);
      assert slots[m - 1 := IpRecorded("h", "u")] == Mixed(n, m, IpRecorded("h", "u"), BothPassed("h", "u"));
    }
  }

  lemma ShapeCount(attempts: Attempts, a: nat, b: nat, cutoff: real)
    requires Shape(attempts, a, b) && cutoff < 0.0
    ensures Count(attempts, IpKey("h"), cutoff) == a
  {
    FreshZeros(a, cutoff);
  }

  /** A run at time zero after which the failures of a key reach the bound. */
  ghost predicate AtBound(n: nat, ticks: seq<Tick>, limits: Limits) {
    && SlotsBelow(ticks, n) && ClockOk(ticks)
    && Failures(n, ticks, limits, IpKey("h"), 0.0) == Limit(limits.maxAttempts, n)
  }

  lemma {:induction false} ZeroClock(ticks: seq<Tick>)
    requires forall tick <- ticks :: tick.now == 0.0
    ensures ClockOk(ticks) && (ticks != [] ==> ticks[|ticks| - 1].now == 0.0)
  {
    assert forall i :: 0 <= i < |ticks| ==> ticks[i] in ticks;
  }

  lemma {:induction false} FullRunIsAtBound(n: nat, ticks: seq<Tick>, limits: Limits, slots: seq<Phase>, k: nat)
    requires n >= 1 && limits.window > 0.0 && k + 1 == limits.maxAttempts && FailRun(n, ticks, limits, slots, k + n, k)
    ensures AtBound(n, ticks, limits)
  {
    ZeroClock(ticks);
    ShapeCount(StepAll(Boot(n), ticks, limits).attempts, k + n, k, 0.0 - limits.window);
    HistoryCount(n, ticks, limits, IpKey("h"), 0.0);
  }

  /** The bound cannot be lowered: n workers that check before any of them records reach it. */
  lemma {:induction false} BoundIsReached(n: nat, limits: Limits)
    requires n >= 1 && limits.maxAttempts >= 1 && limits.window > 0.0
    ensures exists ticks :: AtBound(n, ticks, limits)
  {
    var k := limits.maxAttempts - 1;
    var ticks := RecordTogether(n, n, k, limits);
    FullRunIsAtBound(n, ticks, limits, Mixed(n, n, IpRecorded("h", "u"), BothPassed("h", "u")), k);
  }
}
