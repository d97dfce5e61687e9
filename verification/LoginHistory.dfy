/** What logins one after the other mean for the next one: when it is refused, told by the history of
    logins, and which logins cannot influence it. */
module LoginHistory {
  import opened RateLimiter
  import opened Login

  /** The status of a login after others. */
  function StatusAfter(logins: seq<Request>, request: Request, limits: Limits): int
    requires (forall login <- logins :: |login.clock| == 4) && |request.clock| == 4
  {
    LoginEffect(AfterLogins(logins, limits), request.host, request.user, request.clock, request.ok, limits).1
  }

  /** What an earlier login means to one key: whether it has this key, how it ended, and when it would
      have recorded its failure. */
  datatype Mark = Mark(concerns: bool, status: int, time: real)

  /** The failures that still count: 401 answers for this key after the cutoff, with no 200 for it since. */
  ghost function Standing(marks: seq<Mark>, cutoff: real): set<int> {
    set i | 0 <= i < |marks| && Stands(marks, i, cutoff)
  }

  ghost predicate Stands(marks: seq<Mark>, i: int, cutoff: real)
    requires 0 <= i < |marks|
  {
    && marks[i].concerns && marks[i].status == 401 && marks[i].time > cutoff
    && forall j :: i < j < |marks| && marks[j].concerns ==> marks[j].status != 200
  }

  /** How each of these logins ended. */
  function Statuses(logins: seq<Request>, limits: Limits): (statuses: seq<int>)
    requires forall login <- logins :: |login.clock| == 4
    ensures |statuses| == |logins|
  {
    if logins == [] then []
    else
      var n := |logins| - 1;
      Statuses(logins[..n], limits) + [StatusAfter(logins[..n], logins[n], limits)]
  }

  function HostMarks(logins: seq<Request>, statuses: seq<int>, host: string): seq<Mark>
    requires |statuses| == |logins| && forall login <- logins :: |login.clock| == 4
  {
    seq(|logins|, i requires 0 <= i < |logins| => Mark(logins[i].host == host, statuses[i], logins[i].clock[2]))
  }

  function UserMarks(logins: seq<Request>, statuses: seq<int>, user: string): seq<Mark>
    requires |statuses| == |logins| && forall login <- logins :: |login.clock| == 4
  {
    seq(|logins|, i requires 0 <= i < |logins| => Mark(logins[i].user == user, statuses[i], logins[i].clock[3]))
  }

  /** The timestamps that marks leave, unpruned. */
  function Leave(times: seq<real>, mark: Mark): seq<real> {
    if !mark.concerns || mark.status == 429 then times
    else if mark.status == 401 then times + [mark.time]
    else []
  }

  function Left(marks: seq<Mark>): seq<real> {
    if marks == [] then [] else Leave(Left(marks[..|marks| - 1]), marks[|marks| - 1])
  }

  predicate Answers(marks: seq<Mark>) {
    forall mark <- marks :: mark.status in {200, 401, 429}
  }

  lemma {:induction false} StandingSnoc(marks: seq<Mark>, last: Mark, cutoff: real)
    requires last.status in {200, 401, 429}
    ensures var before, after := Standing(marks, cutoff), Standing(marks + [last], cutoff);
      if !last.concerns || last.status == 429 then after == before
      else if last.status == 401 then after == before + (if last.time > cutoff then {|marks|} else {})
      else after == {}
  {
    var all, n := marks + [last], |marks|;
    forall i | 0 <= i < n
      ensures Stands(all, i, cutoff) <==> Stands(marks, i, cutoff) && (last.concerns ==> last.status != 200)
    {
      assert all[i] == marks[i] && all[n] == last;
      assert forall j :: i < j < n ==> all[j] == marks[j];
    }
    assert Stands(all, n, cutoff) <==> last.concerns && last.status == 401 && last.time > cutoff;
  }

  lemma {:induction false} StandingCounts(marks: seq<Mark>, cutoff: real)
    requires Answers(marks)
    ensures |Fresh(Left(marks), cutoff)| == |Standing(marks, cutoff)|
  {
    if marks == [] {
      assert Standing(marks, cutoff) == {};
    } else {
      var n := |marks| - 1;
      StandingCounts(marks[..n], cutoff);
      assert marks == marks[..n] + [marks[n]];
      StandingSnoc(marks[..n], marks[n], cutoff);
      FreshAppend(Left(marks[..n]), marks[n].time, cutoff);
    }
  }

  /** What one login does to the timestamps of a key, seen from any cutoff still to come. */
  lemma {:induction false} CheckOnKey(attempts: Attempts, r: Request, limits: Limits, key: string, cutoff: real)
    requires Readings(r.clock) && r.clock[3] - limits.window <= cutoff
    ensures var checked := CheckEffect(attempts, IpKey(r.host), UsernameKey(r.user), r.clock[0], r.clock[1], limits).0;
      Fresh(TimesOf(checked, key), cutoff) == Fresh(TimesOf(attempts, key), cutoff)
  {
    var first, second := IsBlocked(r.clock[0], IpKey(r.host)), IsBlocked(r.clock[1], UsernameKey(r.user));
    ApplyRemembers(attempts, first, limits.window, key, cutoff);
    ApplyRemembers(Apply(attempts, first, limits.window), second, limits.window, key, cutoff);
  }

  lemma {:induction false} RecordOnKey(attempts: Attempts, r: Request, window: real, key: string, cutoff: real)
    requires Readings(r.clock) && r.clock[3] - window <= cutoff
    ensures var after := OutcomeEffect(attempts, IpKey(r.host), UsernameKey(r.user), r.clock[2], r.clock[3], false, window);
      Fresh(TimesOf(after, key), cutoff)
        == Fresh(TimesOf(attempts, key) + (if key == IpKey(r.host) then [r.clock[2]]
                                           else if key == UsernameKey(r.user) then [r.clock[3]] else []), cutoff)
  {
    KeysDiffer(r.host, r.user);
    var first, second := RecordFailure(r.clock[2], IpKey(r.host)), RecordFailure(r.clock[3], UsernameKey(r.user));
    var half := Apply(attempts, first, window);
    ApplyRemembers(attempts, first, window, key, cutoff);
    ApplyRemembers(half, second, window, key, cutoff);
    FreshAppend(TimesOf(half, key), r.clock[3], cutoff);
    FreshAppend(TimesOf(attempts, key), r.clock[3], cutoff);
    assert TimesOf(attempts, key) + [] == TimesOf(attempts, key);
  }

  /** The mark that a login sets on a key. */
  function MarkOn(key: string, r: Request, status: int): Mark
    requires |r.clock| == 4
  {
    Mark(key == IpKey(r.host) || key == UsernameKey(r.user), status,
         if key == IpKey(r.host) then r.clock[2] else r.clock[3])
  }

  /** A failed login as a mark: the limiter that passed its checks gains one timestamp, if it concerns the key. */
  lemma {:induction false} FailureOnKey(checked: Attempts, before: seq<real>, r: Request, window: real,
                                        key: string, cutoff: real)
    requires Readings(r.clock) && r.clock[3] - window <= cutoff
    requires Fresh(TimesOf(checked, key), cutoff) == Fresh(before, cutoff)
    ensures var after := OutcomeEffect(checked, IpKey(r.host), UsernameKey(r.user), r.clock[2], r.clock[3], false, window);
      Fresh(TimesOf(after, key), cutoff) == Fresh(Leave(before, MarkOn(key, r, 401)), cutoff)
  {
    RecordOnKey(checked, r, window, key, cutoff);
    var t := if key == IpKey(r.host) then r.clock[2] else r.clock[3];
    FreshAppend(TimesOf(checked, key), t, cutoff);
    FreshAppend(before, t, cutoff);
    assert TimesOf(checked, key) + [] == TimesOf(checked, key);
  }

  lemma {:induction false} SuccessOnKey(checked: Attempts, before: seq<real>, r: Request, window: real,
                                        key: string, cutoff: real)
    requires |r.clock| == 4 && Fresh(TimesOf(checked, key), cutoff) == Fresh(before, cutoff)
    ensures var after := OutcomeEffect(checked, IpKey(r.host), UsernameKey(r.user), r.clock[2], r.clock[3], true, window);
      Fresh(TimesOf(after, key), cutoff) == Fresh(Leave(before, MarkOn(key, r, 200)), cutoff)
  {
  }

  lemma {:induction false} LoginOnKey(attempts: Attempts, r: Request, limits: Limits, key: string, cutoff: real)
    requires Readings(r.clock) && r.clock[3] - limits.window <= cutoff
    ensures var (after, status) := LoginEffect(attempts, r.host, r.user, r.clock, r.ok, limits);
      && status in {200, 401, 429}
      && Fresh(TimesOf(after, key), cutoff) == Fresh(Leave(TimesOf(attempts, key), MarkOn(key, r, status)), cutoff)
  {
    var (checked, blocked) := CheckEffect(attempts, IpKey(r.host), UsernameKey(r.user), r.clock[0], r.clock[1], limits);
    CheckOnKey(attempts, r, limits, key, cutoff);
    if !blocked && r.ok {
      SuccessOnKey(checked, TimesOf(attempts, key), r, limits.window, key, cutoff);
    } else if !blocked {
      FailureOnKey(checked, TimesOf(attempts, key), r, limits.window, key, cutoff);
    }
  }

  function KeyMarks(logins: seq<Request>, statuses: seq<int>, key: string): seq<Mark>
    requires |statuses| == |logins| && forall login <- logins :: |login.clock| == 4
  {
    seq(|logins|, i requires 0 <= i < |logins| => MarkOn(key, logins[i], statuses[i]))
  }

  lemma {:induction false} KeyMarksSnoc(logins: seq<Request>, statuses: seq<int>, key: string, r: Request, status: int)
    requires |statuses| == |logins| && |r.clock| == 4 && forall login <- logins + [r] :: |login.clock| == 4
    requires forall login <- logins :: |login.clock| == 4
    ensures KeyMarks(logins + [r], statuses + [status], key) == KeyMarks(logins, statuses, key) + [MarkOn(key, r, status)]
  {
  }

  /** The limiter holds for a key what the marks of the earlier logins leave. */
  ghost predicate MarksAgree(logins: seq<Request>, limits: Limits, key: string, cutoff: real)
    requires forall login <- logins :: |login.clock| == 4
  {
    var marks := KeyMarks(logins, Statuses(logins, limits), key);
    Answers(marks) && Fresh(TimesOf(AfterLogins(logins, limits), key), cutoff) == Fresh(Left(marks), cutoff)
  }

  lemma {:induction false} MarksAgreeSnoc(attempts: Attempts, marks: seq<Mark>, r: Request, limits: Limits,
                                          key: string, cutoff: real)
    requires Readings(r.clock) && r.clock[3] - limits.window <= cutoff
    requires Answers(marks) && Fresh(TimesOf(attempts, key), cutoff) == Fresh(Left(marks), cutoff)
    ensures var (after, status) := LoginEffect(attempts, r.host, r.user, r.clock, r.ok, limits);
      var all := marks + [MarkOn(key, r, status)];
      Answers(all) && Fresh(TimesOf(after, key), cutoff) == Fresh(Left(all), cutoff)
  {
    LoginOnKey(attempts, r, limits, key, cutoff);
    var mark := MarkOn(key, r, LoginEffect(attempts, r.host, r.user, r.clock, r.ok, limits).1);
    LeaveAgrees(TimesOf(attempts, key), Left(marks), mark, cutoff);
    LeftSnoc(marks, mark);
  }

  lemma {:induction false} KeyMarksAgree(logins: seq<Request>, limits: Limits, key: string, cutoff: real)
    requires LoginClockOk(logins)
    requires logins != [] ==> logins[|logins| - 1].clock[3] - limits.window <= cutoff
    ensures MarksAgree(logins, limits, key, cutoff)
  {
    if logins != [] {
      var n := |logins| - 1;
      var rest, r := logins[..n], logins[n];
      assert logins == rest + [r];
      assert n > 0 ==> logins[n - 1].clock[3] <= r.clock[0];
      KeyMarksAgree(rest, limits, key, cutoff);
      MarksAgreeSnoc(AfterLogins(rest, limits), KeyMarks(rest, Statuses(rest, limits), key), r, limits, key, cutoff);
      KeyMarksSnoc(rest, Statuses(rest, limits), key, r, StatusAfter(rest, r, limits));
    }
  }

  lemma {:induction false} LeaveAgrees(a: seq<real>, b: seq<real>, mark: Mark, cutoff: real)
    requires Fresh(a, cutoff) == Fresh(b, cutoff)
    ensures Fresh(Leave(a, mark), cutoff) == Fresh(Leave(b, mark), cutoff)
  {
    if !mark.concerns || mark.status == 429 {
      assert Leave(a, mark) == a && Leave(b, mark) == b;
    } else if mark.status == 401 {
      FreshAppend(a, mark.time, cutoff);
      FreshAppend(b, mark.time, cutoff);
    } else {
      assert Leave(a, mark) == [] == Leave(b, mark);
    }
  }

  lemma {:induction false} LeftSnoc(marks: seq<Mark>, mark: Mark)
    ensures Left(marks + [mark]) == Leave(Left(marks), mark)
  {
    assert (marks + [mark])[..|marks|] == marks;
  }

  /** The logins end by this time. */
  ghost predicate EndBy(logins: seq<Request>, now: real)
    requires forall login <- logins :: |login.clock| == 4
  {
    logins != [] ==> logins[|logins| - 1].clock[3] <= now
  }

  /** How many failures of a host, and of a user, stand in the window before a moment. */
  ghost function AgainstHost(logins: seq<Request>, limits: Limits, host: string, now: real): nat
    requires forall login <- logins :: |login.clock| == 4
  {
    |Standing(HostMarks(logins, Statuses(logins, limits), host), now - limits.window)|
  }

  ghost function AgainstUser(logins: seq<Request>, limits: Limits, user: string, now: real): nat
    requires forall login <- logins :: |login.clock| == 4
  {
    |Standing(UserMarks(logins, Statuses(logins, limits), user), now - limits.window)|
  }

  /** What the limiter holds for a key, inside the window before a moment. */
  function Held(logins: seq<Request>, limits: Limits, key: string, now: real): nat
    requires forall login <- logins :: |login.clock| == 4
  {
    |Fresh(TimesOf(AfterLogins(logins, limits), key), now - limits.window)|
  }

  lemma {:induction false} HeldIsStanding(logins: seq<Request>, limits: Limits, key: string, now: real)
    requires LoginClockOk(logins) && EndBy(logins, now)
    ensures Held(logins, limits, key, now)
         == |Standing(KeyMarks(logins, Statuses(logins, limits), key), now - limits.window)|
  {
    var cutoff := now - limits.window;
    EndsBefore(logins, limits, now, cutoff);
    KeyMarksAgree(logins, limits, key, cutoff);
    StandingCounts(KeyMarks(logins, Statuses(logins, limits), key), cutoff);
  }

  lemma {:induction false} EndsBefore(logins: seq<Request>, limits: Limits, now: real, cutoff: real)
    requires (forall login <- logins :: |login.clock| == 4) && EndBy(logins, now) && cutoff == now - limits.window
    ensures logins != [] ==> logins[|logins| - 1].clock[3] - limits.window <= cutoff
  {
  }

  lemma {:induction false} HostMarksSame(logins: seq<Request>, statuses: seq<int>, host: string, cutoff: real)
    requires |statuses| == |logins| && forall login <- logins :: |login.clock| == 4
    ensures Standing(KeyMarks(logins, statuses, IpKey(host)), cutoff) == Standing(HostMarks(logins, statuses, host), cutoff)
  {
    forall r: Request
      ensures (IpKey(host) == IpKey(r.host) <==> r.host == host) && IpKey(host) != UsernameKey(r.user)
    {
      KeysAreInjective(host, r.host);
      KeysDiffer(host, r.user);
    }
    SameStanding(KeyMarks(logins, statuses, IpKey(host)), HostMarks(logins, statuses, host), cutoff);
  }

  lemma {:induction false} UserMarksSame(logins: seq<Request>, statuses: seq<int>, user: string, cutoff: real)
    requires |statuses| == |logins| && forall login <- logins :: |login.clock| == 4
    ensures Standing(KeyMarks(logins, statuses, UsernameKey(user)), cutoff)
         == Standing(UserMarks(logins, statuses, user), cutoff)
  {
    forall r: Request
      ensures (UsernameKey(user) == UsernameKey(r.user) <==> r.user == user) && UsernameKey(user) != IpKey(r.host)
    {
      KeysAreInjective(user, r.user);
      KeysDiffer(r.host, user);
    }
    SameStanding(KeyMarks(logins, statuses, UsernameKey(user)), UserMarks(logins, statuses, user), cutoff);
  }

  /** Counting what the limiter holds for a host or a user is counting the failures that stand. */
  lemma {:induction false} HostCount(logins: seq<Request>, limits: Limits, host: string, now: real)
    requires LoginClockOk(logins) && EndBy(logins, now)
    ensures Held(logins, limits, IpKey(host), now) == AgainstHost(logins, limits, host, now)
  {
    HeldIsStanding(logins, limits, IpKey(host), now);
    HostMarksSame(logins, Statuses(logins, limits), host, now - limits.window);
  }

  lemma {:induction false} UserCount(logins: seq<Request>, limits: Limits, user: string, now: real)
    requires LoginClockOk(logins) && EndBy(logins, now)
    ensures Held(logins, limits, UsernameKey(user), now) == AgainstUser(logins, limits, user, now)
  {
    HeldIsStanding(logins, limits, UsernameKey(user), now);
    UserMarksSame(logins, Statuses(logins, limits), user, now - limits.window);
  }

  /** The time of a mark that does not concern the key plays no part. */
  lemma {:induction false} SameStanding(a: seq<Mark>, b: seq<Mark>, cutoff: real)
    requires |a| == |b|
    requires forall i :: 0 <= i < |a| ==>
      a[i].concerns == b[i].concerns && a[i].status == b[i].status && (a[i].concerns ==> a[i].time == b[i].time)
    ensures Standing(a, cutoff) == Standing(b, cutoff)
  {
    forall i | 0 <= i < |a|
      ensures Stands(a, i, cutoff) == Stands(b, i, cutoff)
    {
    }
  }

  lemma {:induction false} StatusByHeld(logins: seq<Request>, r: Request, limits: Limits)
    requires (forall login <- logins :: |login.clock| == 4) && |r.clock| == 4
    ensures StatusAfter(logins, r, limits) ==
      if Held(logins, limits, IpKey(r.host), r.clock[0]) >= limits.maxAttempts
        || Held(logins, limits, UsernameKey(r.user), r.clock[1]) >= limits.maxAttempts then 429
      else if r.ok then 200 else 401
  {
    LoginOutcome(AfterLogins(logins, limits), r.host, r.user, r.clock, r.ok, limits);
  }

  /** A login is refused exactly when, in the window before it, enough earlier logins of its host or of
      its user failed with no successful one of that host or user since; else its password decides. */
  lemma {:induction false} LoginRefusedIff(logins: seq<Request>, request: Request, limits: Limits)
    requires LoginClockOk(logins) && Readings(request.clock) && EndBy(logins, request.clock[0])
    ensures StatusAfter(logins, request, limits) ==
      if AgainstHost(logins, limits, request.host, request.clock[0]) >= limits.maxAttempts
        || AgainstUser(logins, limits, request.user, request.clock[1]) >= limits.maxAttempts then 429
      else if request.ok then 200 else 401
  {
    HostCount(logins, limits, request.host, request.clock[0]);
    UserCount(logins, limits, request.user, request.clock[1]);
    StatusByHeld(logins, request, limits);
  }

  // ---------- isolation ----------

  lemma {:induction false} EffectIsLocal(attempts: Attempts, r: Request, limits: Limits, key: string)
    requires |r.clock| == 4 && key != IpKey(r.host) && key != UsernameKey(r.user)
    ensures TimesOf(LoginEffect(attempts, r.host, r.user, r.clock, r.ok, limits).0, key) == TimesOf(attempts, key)
  {
  }

  lemma {:induction false} ApplyIsCongruent(a: Attempts, b: Attempts, call: Call, window: real, key: string)
    requires TimesOf(a, key) == TimesOf(b, key)
    ensures TimesOf(Apply(a, call, window), key) == TimesOf(Apply(b, call, window), key)
  {
    ApplyEffect(a, call, window, key);
    ApplyEffect(b, call, window, key);
  }

  ghost predicate AgreeOn(a: Attempts, b: Attempts, ipKey: string, usernameKey: string) {
    TimesOf(a, ipKey) == TimesOf(b, ipKey) && TimesOf(a, usernameKey) == TimesOf(b, usernameKey)
  }

  lemma {:induction false} CallIsCongruent(a: Attempts, b: Attempts, call: Call, window: real,
                                           ipKey: string, usernameKey: string)
    requires AgreeOn(a, b, ipKey, usernameKey)
    ensures AgreeOn(Apply(a, call, window), Apply(b, call, window), ipKey, usernameKey)
  {
    ApplyIsCongruent(a, b, call, window, ipKey);
    ApplyIsCongruent(a, b, call, window, usernameKey);
  }

  lemma {:induction false} CheckIsCongruent(a: Attempts, b: Attempts, ipKey: string, usernameKey: string,
                                            t0: real, t1: real, limits: Limits)
    requires AgreeOn(a, b, ipKey, usernameKey)
    ensures var (a', x) := CheckEffect(a, ipKey, usernameKey, t0, t1, limits);
      var (b', y) := CheckEffect(b, ipKey, usernameKey, t0, t1, limits);
      x == y && AgreeOn(a', b', ipKey, usernameKey)
  {
    var first, second := IsBlocked(t0, ipKey), IsBlocked(t1, usernameKey);
    CallIsCongruent(a, b, first, limits.window, ipKey, usernameKey);
    CallIsCongruent(Apply(a, first, limits.window), Apply(b, first, limits.window), second, limits.window, ipKey, usernameKey);
  }

  lemma {:induction false} OutcomeIsCongruent(a: Attempts, b: Attempts, ipKey: string, usernameKey: string,
                                              t2: real, t3: real, ok: bool, window: real)
    requires AgreeOn(a, b, ipKey, usernameKey)
    ensures AgreeOn(OutcomeEffect(a, ipKey, usernameKey, t2, t3, ok, window),
                    OutcomeEffect(b, ipKey, usernameKey, t2, t3, ok, window), ipKey, usernameKey)
  {
    var first := if ok then Reset(t2, ipKey) else RecordFailure(t2, ipKey);
    var second := if ok then Reset(t3, usernameKey) else RecordFailure(t3, usernameKey);
    CallIsCongruent(a, b, first, window, ipKey, usernameKey);
    CallIsCongruent(Apply(a, first, window), Apply(b, first, window), second, window, ipKey, usernameKey);
  }

  /** Two limiters that agree on the keys of a login give it the same status, and still agree on them. */
  lemma {:induction false} EffectIsCongruent(a: Attempts, b: Attempts, r: Request, limits: Limits)
    requires |r.clock| == 4 && AgreeOn(a, b, IpKey(r.host), UsernameKey(r.user))
    ensures var (a', s) := LoginEffect(a, r.host, r.user, r.clock, r.ok, limits);
      var (b', t) := LoginEffect(b, r.host, r.user, r.clock, r.ok, limits);
      s == t && AgreeOn(a', b', IpKey(r.host), UsernameKey(r.user))
  {
    var ipKey, usernameKey := IpKey(r.host), UsernameKey(r.user);
    CheckIsCongruent(a, b, ipKey, usernameKey, r.clock[0], r.clock[1], limits);
    OutcomeIsCongruent(CheckEffect(a, ipKey, usernameKey, r.clock[0], r.clock[1], limits).0,
                       CheckEffect(b, ipKey, usernameKey, r.clock[0], r.clock[1], limits).0,
                       ipKey, usernameKey, r.clock[2], r.clock[3], r.ok, limits.window);
  }

  /** Later logins that share neither host nor user with a request do not change its status. */
  lemma {:induction false} UnrelatedLogins(logins: seq<Request>, more: seq<Request>, request: Request, limits: Limits)
    requires (forall login <- logins + more :: |login.clock| == 4) && |request.clock| == 4
    requires forall login <- more :: login.host != request.host && login.user != request.user
    ensures StatusAfter(logins + more, request, limits) == StatusAfter(logins, request, limits)
  {
    UnrelatedTimes(logins, more, request, limits);
    EffectIsCongruent(AfterLogins(logins + more, limits), AfterLogins(logins, limits), request, limits);
  }

  lemma {:induction false} UnrelatedStep(attempts: Attempts, last: Request, request: Request, limits: Limits)
    requires |last.clock| == 4 && last.host != request.host && last.user != request.user
    ensures AgreeOn(LoginEffect(attempts, last.host, last.user, last.clock, last.ok, limits).0, attempts,
                    IpKey(request.host), UsernameKey(request.user))
  {
    KeysAreInjective(last.host, request.host);
    KeysAreInjective(last.user, request.user);
    KeysDiffer(last.host, request.user);
    KeysDiffer(request.host, last.user);
    EffectIsLocal(attempts, last, limits, IpKey(request.host));
    EffectIsLocal(attempts, last, limits, UsernameKey(request.user));
  }

  lemma {:induction false} UnrelatedTimes(logins: seq<Request>, more: seq<Request>, request: Request, limits: Limits)
    requires forall login <- logins + more :: |login.clock| == 4
    requires forall login <- more :: login.host != request.host && login.user != request.user
    ensures AgreeOn(AfterLogins(logins + more, limits), AfterLogins(logins, limits),
                    IpKey(request.host), UsernameKey(request.user))
  {
    if more == [] {
      assert logins + more == logins;
    } else {
      var n := |more| - 1;
      var last, before := more[n], logins + more[..n];
      assert logins + more == before + [last];
      assert last in more && last in logins + more;
      UnrelatedTimes(logins, more[..n], request, limits);
      AfterLoginsSnoc(before, last, limits);
      UnrelatedStep(AfterLogins(before, limits), last, request, limits);
    }
  }

  predicate Inside(r: Request, hosts: set<string>, users: set<string>) {
    r.host in hosts && r.user in users
  }

  predicate Outside(r: Request, hosts: set<string>, users: set<string>) {
    r.host !in hosts && r.user !in users
  }

  /** The logins of a group of hosts and users. */
  function Only(logins: seq<Request>, hosts: set<string>, users: set<string>): seq<Request> {
    if logins == [] then []
    else
      var last := logins[|logins| - 1];
      Only(logins[..|logins| - 1], hosts, users) + if Inside(last, hosts, users) then [last] else []
  }

  lemma {:induction false} OnlySome(logins: seq<Request>, hosts: set<string>, users: set<string>)
    ensures forall login <- Only(logins, hosts, users) :: login in logins
  {
    if logins != [] {
      OnlySome(logins[..|logins| - 1], hosts, users);
    }
  }

  predicate GroupKey(key: string, hosts: set<string>, users: set<string>) {
    (exists host <- hosts :: key == IpKey(host)) || (exists user <- users :: key == UsernameKey(user))
  }

  lemma {:induction false} OutsideKey(r: Request, hosts: set<string>, users: set<string>, key: string)
    requires Outside(r, hosts, users) && GroupKey(key, hosts, users)
    ensures key != IpKey(r.host) && key != UsernameKey(r.user)
  {
    if host :| host in hosts && key == IpKey(host) {
      KeysAreInjective(host, r.host);
      KeysDiffer(host, r.user);
    } else {
      var user :| user in users && key == UsernameKey(user);
      KeysAreInjective(user, r.user);
      KeysDiffer(r.host, user);
    }
  }

  lemma {:induction false} OnlySnoc(logins: seq<Request>, last: Request, hosts: set<string>, users: set<string>)
    ensures Only(logins + [last], hosts, users)
         == Only(logins, hosts, users) + if Inside(last, hosts, users) then [last] else []
  {
    assert (logins + [last])[..|logins|] == logins;
  }

  /** One more login keeps two limiters in agreement on a key of the group. */
  lemma {:induction false} GroupStep(a: Attempts, b: Attempts, r: Request, limits: Limits, key: string)
    requires |r.clock| == 4 && TimesOf(a, key) == TimesOf(b, key)
    requires TimesOf(a, IpKey(r.host)) == TimesOf(b, IpKey(r.host))
    requires TimesOf(a, UsernameKey(r.user)) == TimesOf(b, UsernameKey(r.user))
    ensures TimesOf(LoginEffect(a, r.host, r.user, r.clock, r.ok, limits).0, key)
         == TimesOf(LoginEffect(b, r.host, r.user, r.clock, r.ok, limits).0, key)
  {
    if key == IpKey(r.host) || key == UsernameKey(r.user) {
      EffectIsCongruent(a, b, r, limits);
    } else {
      EffectIsLocal(a, r, limits, key);
      EffectIsLocal(b, r, limits, key);
    }
  }

  lemma {:induction false} AfterLoginsSnoc(logins: seq<Request>, last: Request, limits: Limits)
    requires (forall login <- logins :: |login.clock| == 4) && |last.clock| == 4
    requires forall login <- logins + [last] :: |login.clock| == 4
    ensures AfterLogins(logins + [last], limits)
         == LoginEffect(AfterLogins(logins, limits), last.host, last.user, last.clock, last.ok, limits).0
  {
    assert (logins + [last])[..|logins|] == logins;
  }

  ghost predicate GroupAgrees(logins: seq<Request>, limits: Limits, hosts: set<string>, users: set<string>, key: string)
    requires forall login <- logins :: |login.clock| == 4
  {
    && (forall login <- Only(logins, hosts, users) :: |login.clock| == 4)
    && TimesOf(AfterLogins(logins, limits), key) == TimesOf(AfterLogins(Only(logins, hosts, users), limits), key)
  }

  lemma {:induction false} InsideSnoc(rest: seq<Request>, last: Request, limits: Limits,
                                      hosts: set<string>, users: set<string>, key: string)
    requires (forall login <- rest :: |login.clock| == 4) && |last.clock| == 4 && Inside(last, hosts, users)
    requires forall login <- rest + [last] :: |login.clock| == 4
    requires GroupAgrees(rest, limits, hosts, users, key)
    requires GroupAgrees(rest, limits, hosts, users, IpKey(last.host))
    requires GroupAgrees(rest, limits, hosts, users, UsernameKey(last.user))
    ensures GroupAgrees(rest + [last], limits, hosts, users, key)
  {
    var mine := Only(rest, hosts, users);
    OnlySnoc(rest, last, hosts, users);
    AfterLoginsSnoc(rest, last, limits);
    AfterLoginsSnoc(mine, last, limits);
    GroupStep(AfterLogins(rest, limits), AfterLogins(mine, limits), last, limits, key);
  }

  lemma {:induction false} OutsideSnoc(rest: seq<Request>, last: Request, limits: Limits,
                                       hosts: set<string>, users: set<string>, key: string)
    requires (forall login <- rest :: |login.clock| == 4) && |last.clock| == 4 && Outside(last, hosts, users)
    requires forall login <- rest + [last] :: |login.clock| == 4
    requires GroupAgrees(rest, limits, hosts, users, key) && GroupKey(key, hosts, users)
    ensures GroupAgrees(rest + [last], limits, hosts, users, key)
  {
    OnlySnoc(rest, last, hosts, users);
    assert Only(rest, hosts, users) + [] == Only(rest, hosts, users);
    AfterLoginsSnoc(rest, last, limits);
    OutsideKey(last, hosts, users, key);
    EffectIsLocal(AfterLogins(rest, limits), last, limits, key);
  }

  lemma {:induction false} GroupTimes(logins: seq<Request>, limits: Limits, hosts: set<string>,
                                      users: set<string>, key: string)
    requires forall login <- logins :: |login.clock| == 4 && (Inside(login, hosts, users) || Outside(login, hosts, users))
    requires GroupKey(key, hosts, users)
    ensures GroupAgrees(logins, limits, hosts, users, key)
    decreases |logins|
  {
    if logins != [] {
      var n := |logins| - 1;
      var rest, last := logins[..n], logins[n];
      assert logins == rest + [last];
      GroupTimes(rest, limits, hosts, users, key);
      if Inside(last, hosts, users) {
        GroupTimes(rest, limits, hosts, users, IpKey(last.host));
        GroupTimes(rest, limits, hosts, users, UsernameKey(last.user));
        InsideSnoc(rest, last, limits, hosts, users, key);
      } else {
        OutsideSnoc(rest, last, limits, hosts, users, key);
      }
    }
  }

  /** Isolation: when hosts and users fall into two groups that no login connects, the logins of one
      group are answered as if those of the other had never been made. */
  lemma {:induction false} GroupsAreIsolated(logins: seq<Request>, request: Request, limits: Limits,
                                             hosts: set<string>, users: set<string>)
    requires forall login <- logins :: |login.clock| == 4 && (Inside(login, hosts, users) || Outside(login, hosts, users))
    requires |request.clock| == 4 && Inside(request, hosts, users)
    ensures (forall login <- Only(logins, hosts, users) :: |login.clock| == 4)
    ensures StatusAfter(logins, request, limits) == StatusAfter(Only(logins, hosts, users), request, limits)
  {
    GroupTimes(logins, limits, hosts, users, IpKey(request.host));
    GroupTimes(logins, limits, hosts, users, UsernameKey(request.user));
    EffectIsCongruent(AfterLogins(logins, limits), AfterLogins(Only(logins, hosts, users), limits), request, limits);
  }

  // ---------- a login can matter through another one ----------

  const ONE: Limits := Limits(1, 60.0)

  function Trying(host: string, user: string, at: real, ok: bool): Request {
    Request(host, user, [at, at, at, at], ok)
  }

  /** Host a fails as x, is refused as u, and then host b logs in as u. */
  const FIRST: Request := Trying("a", "x", 0.0, false)
  const SECOND: Request := Trying("a", "u", 1.0, false)
  const THIRD: Request := Trying("b", "u", 2.0, true)

  lemma {:induction false} AfterNone(r: Request)
    requires Readings(r.clock)
    ensures StatusAfter([], r, ONE) == if r.ok then 200 else 401
  {
    assert LoginClockOk([]) && EndBy([], r.clock[0]);
    LoginRefusedIff([], r, ONE);
    assert Standing(HostMarks([], [], r.host), r.clock[0] - ONE.window) == {};
    assert Standing(UserMarks([], [], r.user), r.clock[1] - ONE.window) == {};
  }

  lemma {:induction false} StandingOne(mark: Mark, cutoff: real)
    ensures |Standing([mark], cutoff)| == if mark.concerns && mark.status == 401 && mark.time > cutoff then 1 else 0
  {
    var marks := [mark];
    assert Stands(marks, 0, cutoff) <==> mark.concerns && mark.status == 401 && mark.time > cutoff;
    if Stands(marks, 0, cutoff) {
      assert Standing(marks, cutoff) == {0};
    } else {
      assert Standing(marks, cutoff) == {};
    }
  }

  lemma {:induction false} OneStatus(r: Request)
    requires Readings(r.clock) && !r.ok
    ensures Statuses([r], ONE) == [401]
  {
    AfterNone(r);
    assert [r][..0] == [] && Statuses([], ONE) == [];
  }

  lemma {:induction false} AgainstOne(r: Request, host: string, user: string, now: real)
    requires Readings(r.clock) && !r.ok && now - 60.0 < r.clock[2]
    ensures AgainstHost([r], ONE, host, now) == if r.host == host then 1 else 0
    ensures AgainstUser([r], ONE, user, now) == if r.user == user then 1 else 0
  {
    OneStatus(r);
    assert HostMarks([r], [401], host) == [Mark(r.host == host, 401, r.clock[2])];
    assert UserMarks([r], [401], user) == [Mark(r.user == user, 401, r.clock[3])];
    StandingOne(Mark(r.host == host, 401, r.clock[2]), now - ONE.window);
    StandingOne(Mark(r.user == user, 401, r.clock[3]), now - ONE.window);
  }

  /** After one failed login, a login of its host or its user is refused. */
  lemma {:induction false} AfterOne(r: Request, next: Request)
    requires Readings(r.clock) && Readings(next.clock) && r.clock[3] <= next.clock[0]
    requires !r.ok && next.clock[1] - 60.0 < r.clock[2] && (next.host == r.host || next.user == r.user)
    ensures StatusAfter([r], next, ONE) == 429
  {
    assert LoginClockOk([r]) && EndBy([r], next.clock[0]);
    LoginRefusedIff([r], next, ONE);
    AgainstOne(r, next.host, next.user, next.clock[0]);
    AgainstOne(r, next.host, next.user, next.clock[1]);
  }

  lemma {:induction false} AfterBoth()
    ensures StatusAfter([FIRST, SECOND], THIRD, ONE) == 200
  {
    AfterOne(FIRST, SECOND);
    OneStatus(FIRST);
    var both := [FIRST, SECOND];
    assert both[..1] == [FIRST];
    assert Statuses(both, ONE) == [401, 429];
    assert LoginClockOk(both) && EndBy(both, THIRD.clock[0]);
    LoginRefusedIff(both, THIRD, ONE);
    assert "a"[0] != "b"[0] && "x"[0] != "u"[0];
    assert Standing(HostMarks(both, [401, 429], "b"), THIRD.clock[0] - ONE.window) == {};
    assert Standing(UserMarks(both, [401, 429], "u"), THIRD.clock[1] - ONE.window) == {};
  }

  /** The first login shares neither host nor user with the third and still decides it, because it
      keeps the second from recording a failure: only whole groups are isolated from each other. */
  lemma {:induction false} UnrelatedLoginCanDecide()
    ensures FIRST.host != THIRD.host && FIRST.user != THIRD.user
    ensures StatusAfter([FIRST, SECOND], THIRD, ONE) == 200 && StatusAfter([SECOND], THIRD, ONE) == 429
  {
    assert "a"[0] != "b"[0] && "x"[0] != "u"[0];
    AfterBoth();
    AfterOne(SECOND, THIRD);
  }
}
