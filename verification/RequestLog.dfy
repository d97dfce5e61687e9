/** The request log with its opportunistic pruning, and the usage summary read from it:
    backend/app/services/request_log_service.py and backend/app/routers/usage.py.
    Times are microseconds; whether an insert prunes is a free choice. */
module RequestLog {
  import opened Prelude

  const DAY: int := 86_400_000_000
  const DENIED_STATUSES: set<int> := {401, 403, 404}

  datatype Row = Row(tokenId: Option<string>, operationId: Option<string>, verb: string, path: string,
                     status: int, latencyMs: int, createdAt: int)

  /** The rows with created_at at or after the cutoff, in order. */
  function Since(rows: seq<Row>, cutoff: int): seq<Row> {
    if rows == [] then []
    else
      var n := |rows| - 1;
      Since(rows[..n], cutoff) + if rows[n].createdAt >= cutoff then [rows[n]] else []
  }

  function Denied(rows: seq<Row>): nat {
    if rows == [] then 0
    else Denied(rows[..|rows| - 1]) + if rows[|rows| - 1].status in DENIED_STATUSES then 1 else 0
  }

  /** One insert; `prunedAt` is the clock reading of a pruning insert. */
  datatype Insert = Insert(row: Row, prunedAt: Option<int>)

  function Recorded(rows: seq<Row>, insert: Insert, retentionDays: int): seq<Row> {
    var all := rows + [insert.row];
    if insert.prunedAt.Some? then Since(all, insert.prunedAt.value - retentionDays * DAY) else all
  }

  lemma {:induction false} SinceMembers(rows: seq<Row>, cutoff: int, row: Row)
    ensures row in Since(rows, cutoff) <==> row in rows && row.createdAt >= cutoff
  {
    if rows != [] {
      var n := |rows| - 1;
      assert rows == rows[..n] + [rows[n]];
      SinceMembers(rows[..n], cutoff, row);
    }
  }

  class RequestLogTable {
    const retentionDays: int
    var rows: seq<Row>

    constructor (retentionDays: int)
      ensures rows == [] && this.retentionDays == retentionDays
    {
      rows := [];
      this.retentionDays := retentionDays;
    }

    method RecordRequestLog(row: Row, prunedAt: Option<int>)
      modifies this
      ensures rows == Recorded(old(rows), Insert(row, prunedAt), retentionDays)
      ensures prunedAt.None? ==> rows == old(rows) + [row]
      ensures prunedAt.Some? ==> forall r :: r in rows <==>
        (r in old(rows) || r == row) && r.createdAt >= prunedAt.value - retentionDays * 86_400_000_000
    {
      rows := rows + [row];
      if prunedAt.Some? {
        var cutoff := prunedAt.value - retentionDays * DAY;
        rows := Since(rows, cutoff);
        forall r
          ensures r in rows <==> (r in old(rows) || r == row) && r.createdAt >= cutoff
        {
          SinceMembers(old(rows) + [row], cutoff, r);
        }
      }
    }
  }

  datatype UsageSummary = UsageSummary(periodDays: int, totalRequests: int, deniedRequests: int, forwardedRequests: int)

  function GetUsageSummary(rows: seq<Row>, now: int, days: int): UsageSummary {
    var cutoff := now - days * DAY;
    var total, denied := |Since(rows, cutoff)|, Denied(Since(rows, cutoff));
    UsageSummary(days, total, denied, total - denied)
  }

  /** The positions of the rows of a window, and of those with a denied status. */
  function WindowOf(rows: seq<Row>, cutoff: int): set<int> {
    set i | 0 <= i < |rows| && rows[i].createdAt >= cutoff
  }

  function DeniedOf(rows: seq<Row>, cutoff: int): set<int> {
    set i | 0 <= i < |rows| && rows[i].createdAt >= cutoff && rows[i].status in {401, 403, 404}
  }

  lemma {:induction false} WindowSnoc(rows: seq<Row>, row: Row, cutoff: int)
    ensures |WindowOf(rows + [row], cutoff)| == |WindowOf(rows, cutoff)| + if row.createdAt >= cutoff then 1 else 0
  {
    var all, n := rows + [row], |rows|;
    if row.createdAt >= cutoff {
      assert WindowOf(all, cutoff) == WindowOf(rows, cutoff) + {n};
    } else {
      assert WindowOf(all, cutoff) == WindowOf(rows, cutoff);
    }
  }

  lemma {:induction false} DeniedOfSnoc(rows: seq<Row>, row: Row, cutoff: int)
    ensures |DeniedOf(rows + [row], cutoff)|
         == |DeniedOf(rows, cutoff)| + if row.createdAt >= cutoff && row.status in {401, 403, 404} then 1 else 0
  {
    var all, n := rows + [row], |rows|;
    if row.createdAt >= cutoff && row.status in {401, 403, 404} {
      assert DeniedOf(all, cutoff) == DeniedOf(rows, cutoff) + {n};
    } else {
      assert DeniedOf(all, cutoff) == DeniedOf(rows, cutoff);
    }
  }

  lemma {:induction false} DeniedSnoc(rows: seq<Row>, row: Row)
    ensures Denied(rows + [row]) == Denied(rows) + if row.status in DENIED_STATUSES then 1 else 0
  {
    assert (rows + [row])[..|rows|] == rows;
  }

  lemma {:induction false} SinceCounts(rows: seq<Row>, cutoff: int)
    ensures |Since(rows, cutoff)| == |WindowOf(rows, cutoff)|
    ensures Denied(Since(rows, cutoff)) == |DeniedOf(rows, cutoff)|
  {
    if rows == [] {
      assert WindowOf(rows, cutoff) == {} && DeniedOf(rows, cutoff) == {};
    } else {
      var n := |rows| - 1;
      assert rows == rows[..n] + [rows[n]];
      SinceCounts(rows[..n], cutoff);
      SinceAppend(rows[..n], rows[n], cutoff);
      WindowSnoc(rows[..n], rows[n], cutoff);
      DeniedOfSnoc(rows[..n], rows[n], cutoff);
      if rows[n].createdAt >= cutoff {
        DeniedSnoc(Since(rows[..n], cutoff), rows[n]);
      } else {
        assert Since(rows[..n], cutoff) + [] == Since(rows[..n], cutoff);
      }
    }
  }

  /** The summary counts the rows of the last so many times 24 hours, and those of them with status 401,
      403 or 404. */
  lemma {:induction false} SummaryExactly(rows: seq<Row>, now: int, days: int)
    ensures var summary, cutoff := GetUsageSummary(rows, now, days), now - days * 86_400_000_000;
      && summary.periodDays == days
      && summary.totalRequests == |WindowOf(rows, cutoff)|
      && summary.deniedRequests == |DeniedOf(rows, cutoff)|
      && summary.forwardedRequests == |WindowOf(rows, cutoff)| - |DeniedOf(rows, cutoff)|
  {
    SinceCounts(rows, now - days * DAY);
  }

  function LogAfter(inserts: seq<Insert>, retentionDays: int): seq<Row> {
    if inserts == [] then []
    else Recorded(LogAfter(inserts[..|inserts| - 1], retentionDays), inserts[|inserts| - 1], retentionDays)
  }

  /** Every row ever recorded. */
  function FullLog(inserts: seq<Insert>): seq<Row> {
    seq(|inserts|, i requires 0 <= i < |inserts| => inserts[i].row)
  }

  /** The clock never goes back, and `now` is its last reading. */
  ghost predicate ClockOk(inserts: seq<Insert>, now: int) {
    && (forall i, j :: 0 <= i < j < |inserts| ==> End(inserts[i]) <= inserts[j].row.createdAt)
    && (forall i :: 0 <= i < |inserts| ==> inserts[i].row.createdAt <= End(inserts[i]) <= now)
  }

  function End(insert: Insert): int {
    if insert.prunedAt.Some? then insert.prunedAt.value else insert.row.createdAt
  }

  lemma {:induction false} SinceAppend(rows: seq<Row>, row: Row, cutoff: int)
    ensures Since(rows + [row], cutoff) == Since(rows, cutoff) + if row.createdAt >= cutoff then [row] else []
  {
    assert (rows + [row])[..|rows|] == rows;
  }

  lemma {:induction false} SinceTwice(rows: seq<Row>, early: int, late: int)
    requires early <= late
    ensures Since(Since(rows, early), late) == Since(rows, late)
  {
    if rows != [] {
      var n := |rows| - 1;
      SinceTwice(rows[..n], early, late);
      if rows[n].createdAt >= early {
        SinceAppend(Since(rows[..n], early), rows[n], late);
      } else {
        assert Since(rows, early) == Since(rows[..n], early);
        assert Since(rows, late) == Since(rows[..n], late);
      }
    }
  }

  lemma {:induction false} InsertKeepsWindow(before: seq<Row>, full: seq<Row>, insert: Insert,
                                             retentionDays: int, cutoff: int)
    requires Since(before, cutoff) == Since(full, cutoff)
    requires insert.prunedAt.Some? ==> insert.prunedAt.value - retentionDays * DAY <= cutoff
    ensures Since(Recorded(before, insert, retentionDays), cutoff) == Since(full + [insert.row], cutoff)
  {
    SinceAppend(before, insert.row, cutoff);
    SinceAppend(full, insert.row, cutoff);
    if insert.prunedAt.Some? {
      SinceTwice(before + [insert.row], insert.prunedAt.value - retentionDays * DAY, cutoff);
    }
  }

  lemma {:induction false} PruningKeepsWindow(inserts: seq<Insert>, retentionDays: int, now: int, days: int)
    requires ClockOk(inserts, now) && days <= retentionDays
    ensures Since(LogAfter(inserts, retentionDays), now - days * DAY) == Since(FullLog(inserts), now - days * DAY)
  {
    if inserts != [] {
      var n := |inserts| - 1;
      PruningKeepsWindow(inserts[..n], retentionDays, now, days);
      assert FullLog(inserts) == FullLog(inserts[..n]) + [inserts[n].row];
      InsertKeepsWindow(LogAfter(inserts[..n], retentionDays), FullLog(inserts[..n]), inserts[n], retentionDays,
                        now - days * DAY);
    }
  }

  ghost predicate Invisible(inserts: seq<Insert>, now: int, retentionDays: int, days: int) {
    GetUsageSummary(LogAfter(inserts, retentionDays), now, days) == GetUsageSummary(FullLog(inserts), now, days)
  }

  /** Two requests, `days` apart, the second of which prunes. */
  function Spaced(days: int): seq<Insert> {
    var row := Row(None, None, "GET", "/", 401, 0, 0);
    [Insert(row, None), Insert(row.(createdAt := days * DAY), Some(days * DAY))]
  }

  lemma SpacedShows(retentionDays: int, days: int)
    requires days >= 1 && days > retentionDays
    ensures ClockOk(Spaced(days), days * DAY) && !Invisible(Spaced(days), days * DAY, retentionDays, days)
  {
    var inserts := Spaced(days);
    var first, second := inserts[0].row, inserts[1].row;
    var cutoff := days * DAY - retentionDays * DAY;
    assert inserts[..1] == [inserts[0]] && inserts[..1][..0] == [];
    assert LogAfter(inserts[..1], retentionDays) == [first];
    assert FullLog(inserts) == [first, second] == [first] + [second];
    SinceAppend([], first, cutoff);
    SinceAppend([first], second, cutoff);
    assert [] + [first] == [first];
    assert cutoff > 0;
    assert |LogAfter(inserts, retentionDays)| <= 1;
    SinceShrinks(LogAfter(inserts, retentionDays), 0);
    SinceAppend([], first, 0);
    SinceAppend([first], second, 0);
  }

  lemma {:induction false} SinceShrinks(rows: seq<Row>, cutoff: int)
    ensures |Since(rows, cutoff)| <= |rows|
  {
    if rows != [] {
      SinceShrinks(rows[..|rows| - 1], cutoff);
    }
  }

  /** Pruning is invisible to a summary over `days`, for every choice of when to prune and every run,
      exactly when the summary does not look further back than the log is kept. */
  lemma PruningInvisibleIff(retentionDays: int, days: int)
    requires days >= 1
    ensures (forall inserts, now :: ClockOk(inserts, now) ==> Invisible(inserts, now, retentionDays, days))
        <==> days <= retentionDays
  {
    if days <= retentionDays {
      forall inserts, now | ClockOk(inserts, now)
        ensures Invisible(inserts, now, retentionDays, days)
      {
        PruningKeepsWindow(inserts, retentionDays, now, days);
      }
    } else {
      SpacedShows(retentionDays, days);
    }
  }
}
