/** What the usage summary says about a run: backend/app/routers/usage.py over the rows that proxy writes. */
module Usage {
  import opened Prelude
  import opened Authorization
  import opened AuthorizationSafety
  import opened RequestLog
  import Matcher = OperationMatcher

  /** How the forwarded request ends. */
  datatype Upstream = Answered(status: int) | TimedOut | Failed

  function StatusOf(decision: Decision, upstream: Upstream): int {
    match decision
    case Unauthenticated(_) => 401
    case NoOperation(_) => 404
    case Forbidden(_, _) => 403
    case NotConfigured(_, _) => 503
    case Forwarded(_, _) => if upstream.Answered? then upstream.status else if upstream.TimedOut? then 504 else 502
  }

  /** The one log row of a request. */
  function LogRow(request: Request, decision: Decision, upstream: Upstream, latencyMs: int, createdAt: int): Row {
    Row(if decision.Unauthenticated? then None else Some(decision.tokenId),
        if decision.Unauthenticated? || decision.NoOperation? then None else Some(decision.operationId),
        request.verb, request.path, StatusOf(decision, upstream), latencyMs, createdAt)
  }

  /** A logged request of a run: the event at which it was checked, how the upstream answered if it was
      forwarded, and when its row was written. */
  datatype Exchange = Exchange(at: nat, upstream: Upstream, latencyMs: int, loggedAt: int, prunedAt: Option<int>)

  ghost predicate Checked(events: seq<Event>, x: Exchange) {
    && x.at < |events| && events[x.at].Proxy?
    && Lists(events[x.at].request.order, StateAt(events, x.at).operations)
  }

  /** The logged requests of a run, in the order of their rows; a request is logged once. */
  ghost predicate Logged(events: seq<Event>, exchanges: seq<Exchange>) {
    && (forall x <- exchanges :: Checked(events, x))
    && (forall i, j :: 0 <= i < j < |exchanges| ==> exchanges[i].at != exchanges[j].at)
  }

  ghost function DecisionAt(finder: Matcher.Finder, events: seq<Event>, x: Exchange): Decision
    requires Checked(events, x)
  {
    Decide(finder, StateAt(events, x.at), events[x.at].request)
  }

  ghost function InsertOf(finder: Matcher.Finder, events: seq<Event>, x: Exchange): Insert
    requires Checked(events, x)
  {
    Insert(LogRow(events[x.at].request, DecisionAt(finder, events, x), x.upstream, x.latencyMs, x.loggedAt), x.prunedAt)
  }

  /** The inserts that fill the log of a run. */
  ghost function InsertsOf(finder: Matcher.Finder, events: seq<Event>, exchanges: seq<Exchange>): seq<Insert>
    requires Logged(events, exchanges)
  {
    seq(|exchanges|, i requires 0 <= i < |exchanges| => InsertOf(finder, events, exchanges[i]))
  }

  // ---------- what is logged ----------

  /** The status of a request, by what holds for it: 401 without an accepted header, 404 without a
      matched operation, 403 without a grant, 503 without a configuration, else the upstream's status,
      504 for a timeout and 502 for any other failure. */
  ghost predicate StatusHolds(finder: Matcher.Finder, s: State, request: Request, upstream: Upstream, row: Row)
    requires Lists(request.order, s.operations)
  {
    var operation := Resolve(finder, s.cache, s.operations, request);
    if row.tokenId.None? then row.status == 401
    else if operation.None? then row.status == 404
    else if !Granted(s, row.tokenId.value, operation.value) then row.status == 403
    else if s.config.None? then row.status == 503
    else
      match upstream
      case Answered(status) => row.status == status
      case TimedOut => row.status == 504
      case Failed => row.status == 502
  }

  /** Every column of the row of a request: the token whose value its header carries, the operation the
      matcher found for it, the request's own method and path, and the status. */
  lemma {:induction false} RowExactly(finder: Matcher.Finder, s: State, request: Request, upstream: Upstream,
                                      latencyMs: int, createdAt: int)
    requires UniqueHashes(s.tokens) && Lists(request.order, s.operations)
    ensures var row := LogRow(request, Decide(finder, s, request), upstream, latencyMs, createdAt);
      && (forall t :: row.tokenId == Some(t) <==> Admits(s, request, t))
      && row.operationId == (if row.tokenId.None? then None else Resolve(finder, s.cache, s.operations, request))
      && row.verb == request.verb && row.path == request.path
      && row.latencyMs == latencyMs && row.createdAt == createdAt
      && StatusHolds(finder, s, request, upstream, row)
  {
    var decision := Decide(finder, s, request);
    DecideExactly(finder, s, request, decision);
    var row := LogRow(request, decision, upstream, latencyMs, createdAt);
    forall t
      ensures row.tokenId == Some(t) <==> Admits(s, request, t)
    {
      AuthenticateExactly(s.tokens, request.header, request.now, Authenticated(t));
    }
  }

  // ---------- what is counted ----------

  /** What became of a request: the proxy itself rejected it; it was forwarded and the upstream answered
      with one of the denial statuses; or it was forwarded and ended in any other way. */
  datatype Fate = Rejected | Echoed | Passed

  ghost function FateOf(finder: Matcher.Finder, events: seq<Event>, x: Exchange): Fate
    requires Checked(events, x)
  {
    if !DecisionAt(finder, events, x).Forwarded? then Rejected
    else if x.upstream.Answered? && x.upstream.status in {401, 403, 404} then Echoed
    else Passed
  }

  datatype Entry = Entry(loggedAt: int, fate: Fate)

  ghost function EntriesOf(finder: Matcher.Finder, events: seq<Event>, exchanges: seq<Exchange>): seq<Entry>
    requires Logged(events, exchanges)
  {
    seq(|exchanges|, i requires 0 <= i < |exchanges| =>
      Entry(exchanges[i].loggedAt, FateOf(finder, events, exchanges[i])))
  }

  /** The requests of the window, and those of them with a given fate, by position. */
  function Recent(entries: seq<Entry>, cutoff: int): set<int> {
    set i | 0 <= i < |entries| && entries[i].loggedAt >= cutoff
  }

  function Having(entries: seq<Entry>, cutoff: int, fate: Fate): set<int> {
    set i | 0 <= i < |entries| && entries[i].loggedAt >= cutoff && entries[i].fate == fate
  }

  /** The row was written for this entry. */
  predicate Matches(row: Row, entry: Entry) {
    row.createdAt == entry.loggedAt && (row.status in DENIED_STATUSES <==> !entry.fate.Passed?)
  }

  /** In a run, a row is denied exactly when its request was rejected or its answer echoes a denial. */
  lemma {:induction false} RowMatches(finder: Matcher.Finder, events: seq<Event>, x: Exchange)
    requires Checked(events, x)
    ensures Matches(InsertOf(finder, events, x).row, Entry(x.loggedAt, FateOf(finder, events, x)))
  {
    NeverNotConfigured(finder, events[..x.at], events[x.at].request);
  }

  /** The rows of the window: one for each recent request, denied for each rejected or echoed one. */
  lemma {:induction false} CountsMatch(rows: seq<Row>, entries: seq<Entry>, cutoff: int)
    requires |rows| == |entries| && forall i :: 0 <= i < |rows| ==> Matches(rows[i], entries[i])
    ensures |WindowOf(rows, cutoff)| == |Recent(entries, cutoff)|
    ensures |DeniedOf(rows, cutoff)| == |Having(entries, cutoff, Rejected)| + |Having(entries, cutoff, Echoed)|
  {
    assert WindowOf(rows, cutoff) == Recent(entries, cutoff);
    var rejected, echoed := Having(entries, cutoff, Rejected), Having(entries, cutoff, Echoed);
    assert rejected !! echoed;
    assert DeniedOf(rows, cutoff) == rejected + echoed;
  }

  lemma {:induction false} RowsMatch(finder: Matcher.Finder, events: seq<Event>, exchanges: seq<Exchange>)
    requires Logged(events, exchanges)
    ensures var rows, entries := FullLog(InsertsOf(finder, events, exchanges)), EntriesOf(finder, events, exchanges);
      |rows| == |entries| && forall i :: 0 <= i < |rows| ==> Matches(rows[i], entries[i])
  {
    forall i | 0 <= i < |exchanges|
      ensures Matches(FullLog(InsertsOf(finder, events, exchanges))[i], EntriesOf(finder, events, exchanges)[i])
    {
      RowMatches(finder, events, exchanges[i]);
    }
  }

  /** What the summary counts, from the full log alone. */
  lemma {:induction false} FullSummary(rows: seq<Row>, entries: seq<Entry>, now: int, days: int)
    requires |rows| == |entries| && forall i :: 0 <= i < |rows| ==> Matches(rows[i], entries[i])
    ensures var summary, cutoff := GetUsageSummary(rows, now, days), now - days * 86_400_000_000;
      && summary.totalRequests == |Recent(entries, cutoff)|
      && summary.deniedRequests == |Having(entries, cutoff, Rejected)| + |Having(entries, cutoff, Echoed)|
      && summary.forwardedRequests == summary.totalRequests - summary.deniedRequests
  {
    SummaryExactly(rows, now, days);
    CountsMatch(rows, entries, now - days * 86_400_000_000);
  }

  /** The summary of a run, whatever inserts pruned the log, within the retention time: how its three
      counts come about. */
  lemma {:induction false} SummaryAccounting(finder: Matcher.Finder, events: seq<Event>, exchanges: seq<Exchange>,
                                             now: int, days: int, retentionDays: int)
    requires Logged(events, exchanges) && days <= retentionDays
    requires ClockOk(InsertsOf(finder, events, exchanges), now)
    ensures var summary := GetUsageSummary(LogAfter(InsertsOf(finder, events, exchanges), retentionDays), now, days);
      var entries, cutoff := EntriesOf(finder, events, exchanges), now - days * 86_400_000_000;
      && summary.totalRequests == |Recent(entries, cutoff)|
      && summary.deniedRequests == |Having(entries, cutoff, Rejected)| + |Having(entries, cutoff, Echoed)|
      && summary.forwardedRequests == summary.totalRequests - summary.deniedRequests
  {
    var inserts := InsertsOf(finder, events, exchanges);
    PruningKeepsWindow(inserts, retentionDays, now, days);
    RowsMatch(finder, events, exchanges);
    FullSummary(FullLog(inserts), EntriesOf(finder, events, exchanges), now, days);
  }

  /** The summary counts as denied exactly the requests that the proxy rejected, if and only if the
      upstream answered none of the forwarded ones with 401, 403 or 404. */
  lemma {:induction false} DeniedMeansRejectedIff(finder: Matcher.Finder, events: seq<Event>, exchanges: seq<Exchange>,
                                                  now: int, days: int, retentionDays: int)
    requires Logged(events, exchanges) && days <= retentionDays
    requires ClockOk(InsertsOf(finder, events, exchanges), now)
    ensures var summary := GetUsageSummary(LogAfter(InsertsOf(finder, events, exchanges), retentionDays), now, days);
      var entries, cutoff := EntriesOf(finder, events, exchanges), now - days * 86_400_000_000;
      summary.deniedRequests == |Having(entries, cutoff, Rejected)| <==> Having(entries, cutoff, Echoed) == {}
  {
    SummaryAccounting(finder, events, exchanges, now, days, retentionDays);
  }
}
