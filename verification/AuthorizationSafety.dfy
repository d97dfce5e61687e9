/** What holds over every run of the authorization state machine: any interleaving of token handlers,
    config upserts, restarts, two-step refreshes and proxied requests, from an empty database. */
module AuthorizationSafety {
  import opened Prelude
  import opened OperationIdentity
  import opened SchemaSync
  import opened Authorization
  import Matcher = OperationMatcher

  // ---------- refreshes ----------

  /** The operations a step reconciles, when it completes a refresh successfully. */
  ghost function CompletedItems(s: State, event: Event): Option<seq<Item>> {
    match event
    case EndRefresh(refresh, FetchedDocument(Paths(paths), _), _) =>
      if refresh in s.inFlight && s.config.Some? then Some(Extract(paths)) else None
    case _ => None
  }

  /** The operations of the most recently completed refresh. */
  ghost function LastCompleted(events: seq<Event>): Option<seq<Item>> {
    if events == [] then None
    else
      var n := |events| - 1;
      var now := CompletedItems(After(events[..n]), events[n]);
      if now.Some? then now else LastCompleted(events[..n])
  }

  ghost predicate Fetched(s: State) {
    s.config.Some? && s.config.value.lastFetchedAt.Some?
  }

  lemma CompletionStep(s: State, event: Event)
    requires CompletedItems(s, event).Some?
    ensures var s', items := Step(s, event), CompletedItems(s, event).value;
      && s'.operations == SyncedTable(s.operations, items)
      && s'.snapshots == WithSnapshot(s.snapshots, Snapshot(event.fetched.specHash, ResultOf(s.operations, items)))
      && Fetched(s') && s'.permissions == s.permissions && s'.tokens == s.tokens
  {
  }

  lemma ConfigStep(s: State, event: Event)
    requires event.UpsertConfig? || event.Startup?
    ensures var s' := Step(s, event);
      && s'.snapshots == s.snapshots
      && (UrlChange(s, s') ==> s'.operations == map[] && !Fetched(s'))
      && (!UrlChange(s, s') ==> s'.operations == s.operations && (Fetched(s') <==> Fetched(s)))
  {
  }

  lemma QuietStep(s: State, event: Event)
    requires !event.UpsertConfig? && !event.Startup? && CompletedItems(s, event).None?
    ensures var s' := Step(s, event);
      && s'.snapshots == s.snapshots && !UrlChange(s, s')
      && s'.operations == s.operations && (Fetched(s') <==> Fetched(s))
  {
  }

  /** Operations and snapshots change only when a refresh completes or a URL changes. */
  lemma OperationsStep(s: State, event: Event)
    ensures var s', items := Step(s, event), CompletedItems(s, event);
      if items.Some? then
        && s'.operations == SyncedTable(s.operations, items.value)
        && s'.snapshots == WithSnapshot(s.snapshots,
                             Snapshot(event.fetched.specHash, ResultOf(s.operations, items.value)))
        && Fetched(s') && s'.permissions == s.permissions && s'.tokens == s.tokens
      else
        && s'.snapshots == s.snapshots
        && (UrlChange(s, s') ==> s'.operations == map[] && !Fetched(s'))
        && (!UrlChange(s, s') ==> s'.operations == s.operations && (Fetched(s') <==> Fetched(s)))
  {
    if CompletedItems(s, event).Some? {
      CompletionStep(s, event);
    } else if event.UpsertConfig? || event.Startup? {
      ConfigStep(s, event);
    } else {
      QuietStep(s, event);
    }
  }

  /** Freshness: as long as the schema counts as unfetched there are no operations at all; otherwise
      the active ones are exactly the non-admin operations of the last completed refresh. */
  lemma {:induction false} Freshness(events: seq<Event>)
    ensures var s := After(events);
      if !Fetched(s) then s.operations == map[]
      else LastCompleted(events).Some? && ActiveIds(s.operations) == TargetIds(LastCompleted(events).value)
  {
    if events != [] {
      var n := |events| - 1;
      var s := After(events[..n]);
      Freshness(events[..n]);
      OperationsStep(s, events[n]);
      var items := CompletedItems(s, events[n]);
      if items.Some? {
        Reconciliation(s.operations, items.value);
      }
    }
  }

  /** Every row of every reachable table is filed under the id computed from its own fields. */
  lemma {:induction false} RowsAreWellKeyed(events: seq<Event>)
    ensures WellKeyed(After(events).operations)
  {
    if events != [] {
      var n := |events| - 1;
      var s := After(events[..n]);
      RowsAreWellKeyed(events[..n]);
      OperationsStep(s, events[n]);
      if CompletedItems(s, events[n]).Some? {
        var paths := events[n].fetched.document.paths;
        ExtractedFromDocument(paths);
        SyncKeepsWellKeyed(s.operations, Extract(paths));
      }
    }
  }

  /** The same id names the same endpoint in any two states of a run, across refreshes and URL resets,
      for paths without a space. */
  lemma IdsNameOneEndpoint(events: seq<Event>, i: nat, j: nat, id: string)
    requires i <= |events| && j <= |events|
    requires id in StateAt(events, i).operations && id in StateAt(events, j).operations
    requires ' ' !in StateAt(events, i).operations[id].path && ' ' !in StateAt(events, j).operations[id].path
    ensures var x, y := StateAt(events, i).operations[id], StateAt(events, j).operations[id];
      Upper(x.verb) == Upper(y.verb) && x.path == y.path
      && OrEmpty(x.openapiOperationId) == OrEmpty(y.openapiOperationId)
  {
    RowsAreWellKeyed(events[..i]);
    RowsAreWellKeyed(events[..j]);
    var x, y := StateAt(events, i).operations[id], StateAt(events, j).operations[id];
    assert RowWellKeyed(id, x) && RowWellKeyed(id, y);
    IdentityIsInjective(x.verb, x.path, x.openapiOperationId, y.verb, y.path, y.openapiOperationId);
  }

  /** The row under this id is this endpoint in the given state of the run. */
  ghost predicate Names(events: seq<Event>, i: int, id: string, verb: string, path: string, operationId: string) {
    && 0 <= i <= |events| && id in StateAt(events, i).operations
    && var row := StateAt(events, i).operations[id];
       Upper(row.verb) == Upper(verb) && row.path == path && OrEmpty(row.openapiOperationId) == operationId
  }

  /** No run lets the id of this endpoint ever name another one. */
  ghost predicate NamesOnly(id: string, verb: string, path: string, operationId: string) {
    forall events, i, j ::
      (Names(events, i, id, verb, path, operationId) && 0 <= j <= |events| && id in StateAt(events, j).operations
       ==> Names(events, j, id, verb, path, operationId))
  }

  lemma {:induction false} UnspacedNamesOnly(events: seq<Event>, i: nat, j: nat, id: string,
                                             verb: string, path: string, operationId: string)
    requires KnownMethod(verb) && ' ' !in path && ' ' !in operationId
    requires Names(events, i, id, verb, path, operationId) && j <= |events| && id in StateAt(events, j).operations
    ensures Names(events, j, id, verb, path, operationId)
  {
    RowsAreWellKeyed(events[..i]);
    RowsAreWellKeyed(events[..j]);
    var x, y := StateAt(events, i).operations[id], StateAt(events, j).operations[id];
    assert RowWellKeyed(id, x) && RowWellKeyed(id, y);
    var op := OrEmpty(y.openapiOperationId);
    SameHeadAndTail(x.verb, path, operationId, y.verb, y.path, op);
    if y.path != path || op != operationId {
      SharedTailNeedsSpace(path, operationId, y.path, op);
    }
  }

  /** A document that declares one operation. */
  function Declaring(verb: string, path: string, operationId: string): Fetched {
    FetchedDocument(Paths([(path, PathObject([(verb, OperationObject(Some(operationId), None))]))]), "hash")
  }

  lemma ExtractDeclared(verb: string, path: string, operationId: string)
    requires KnownMethod(verb)
    ensures Extract(Declaring(verb, path, operationId).document.paths)
         == [Item(ComputeOperationId(verb, path, Some(operationId)), Upper(verb), path, Some(operationId), None)]
  {
    var e := (verb, OperationObject(Some(operationId), None));
    assert [(path, PathObject([e]))][..0] == [] && [e][..0] == [];
    assert ExtractPath(path, [e]) == [MakeItem(path, e)];
  }

  /** The events that save a URL and complete a refresh from it. */
  function SyncFrom(openapiUrl: string, fetched: Fetched): seq<Event> {
    [UpsertConfig("e", openapiUrl, None), BeginRefresh(0), EndRefresh(0, fetched, 0)]
  }

  lemma {:induction false} AfterThree(events: seq<Event>, a: Event, b: Event, c: Event)
    ensures After(events + [a, b, c]) == Step(Step(Step(After(events), a), b), c)
  {
    AfterSnoc(events, a);
    AfterSnoc(events + [a], b);
    AfterSnoc(events + [a] + [b], c);
    assert events + [a] + [b] + [c] == events + [a, b, c];
  }

  lemma {:induction false} SaveStep(s: State, openapiUrl: string)
    requires s.presets == Presets(None, None)
    ensures var s' := Step(s, UpsertConfig("e", openapiUrl, None));
      && s'.presets == s.presets && s'.config.Some? && s'.config.value.openapiUrl == openapiUrl
      && s'.tokens == s.tokens && s'.cache == s.cache && s'.inFlight == s.inFlight
      && (s.operations == map[] ==> s'.operations == map[])
      && (s.config.Some? && s.config.value.openapiUrl != openapiUrl ==> s'.operations == map[])
      && s'.config.value.endpointUrl == "e"
      && (s.config.Some? && s.config.value.endpointUrl == "e" && s.config.value.openapiUrl == openapiUrl
          ==> s'.operations == s.operations)
  {
  }

  lemma {:induction false} FetchSteps(s: State, fetched: Fetched)
    requires s.config.Some? && fetched.FetchedDocument? && fetched.document.Paths?
    ensures var s' := Step(Step(s, BeginRefresh(0)), EndRefresh(0, fetched, 0));
      && s'.config.Some? && s'.config.value.openapiUrl == s.config.value.openapiUrl && s'.presets == s.presets
      && s'.config.value.endpointUrl == s.config.value.endpointUrl
      && s'.operations == SyncedTable(s.operations, Extract(fetched.document.paths))
      && s'.tokens == s.tokens && s'.permissions == s.permissions && s'.cache == s.cache
  {
  }

  /** The state that a run and then SyncFrom lead to, in a process without presets. */
  lemma {:induction false} AfterSync(events: seq<Event>, openapiUrl: string, verb: string, path: string,
                                     operationId: string)
    requires KnownMethod(verb) && After(events).presets == Presets(None, None)
    ensures var fetched := Declaring(verb, path, operationId);
      var saved := Step(After(events), UpsertConfig("e", openapiUrl, None));
      var s := After(events + SyncFrom(openapiUrl, fetched));
      && s.presets == Presets(None, None) && s.config.Some? && s.config.value.openapiUrl == openapiUrl
      && s.config.value.endpointUrl == "e"
      && s.operations == SyncedTable(saved.operations, Extract(fetched.document.paths))
      && s.tokens == After(events).tokens && s.permissions == saved.permissions && s.cache == After(events).cache
  {
    var fetched := Declaring(verb, path, operationId);
    AfterThree(events, UpsertConfig("e", openapiUrl, None), BeginRefresh(0), EndRefresh(0, fetched, 0));
    SaveStep(After(events), openapiUrl);
    FetchSteps(Step(After(events), UpsertConfig("e", openapiUrl, None)), fetched);
  }

  /** A table synced with one kept operation that is new to it holds that operation, active. */
  lemma {:induction false} SyncedOne(table: Table, verb: string, path: string, operationId: string)
    requires KnownMethod(verb) && !(ADMIN_PATH_PREFIX <= path)
    requires ComputeOperationId(verb, path, Some(operationId)) !in table
    ensures var id := ComputeOperationId(verb, path, Some(operationId));
      var t := SyncedTable(table, Extract(Declaring(verb, path, operationId).document.paths));
      && t.Keys == table.Keys + {id} && ActiveIds(t) == {id}
      && t[id].verb == Upper(verb) && t[id].path == path && t[id].openapiOperationId == Some(operationId)
      && (forall other <- table :: t[other].SameEndpoint(table[other]))
  {
    var items := Extract(Declaring(verb, path, operationId).document.paths);
    var id := ComputeOperationId(verb, path, Some(operationId));
    ExtractDeclared(verb, path, operationId);
    assert items[0] in items && TargetIds(items) == {id};
    Reconciliation(table, items);
  }

  /** With a space, syncing another endpoint from another URL makes the id name that one. */
  lemma {:induction false} SpacedNamesAnother(verb: string, path: string, operationId: string)
    requires KnownMethod(verb) && !(ADMIN_PATH_PREFIX <= path) && (' ' in path || ' ' in operationId)
    ensures !NamesOnly(ComputeOperationId(verb, path, Some(operationId)), verb, path, operationId)
  {
    var id := ComputeOperationId(verb, path, Some(operationId));
    var path', operationId' := SpaceShares(verb, path, operationId);
    if ADMIN_PATH_PREFIX <= path' {
      AdminToo(path, path');
    }
    UpperFacts(verb);
    var first := SyncFrom("o1", Declaring(verb, path, operationId));
    var run := first + SyncFrom("o2", Declaring(verb, path', operationId'));
    assert [] + first == first;
    AfterSync([], "o1", verb, path, operationId);
    SyncedOne(map[], verb, path, operationId);
    AfterSync(first, "o2", verb, path', operationId');
    SyncedOne(map[], verb, path', operationId');
    assert run[..3] == first && run[..6] == run;
    assert Names(run, 3, id, verb, path, operationId);
    assert id in StateAt(run, 6).operations && !Names(run, 6, id, verb, path, operationId);
  }

  lemma AdminToo(path: string, path': string)
    requires ADMIN_PATH_PREFIX <= path' && (path' <= path || path + " " <= path')
    ensures ADMIN_PATH_PREFIX <= path
  {
    if path + " " <= path' {
      var i := |path|;
      assert path'[i] == (path + " ")[i] == ' ';
      assert forall k | 0 <= k < |ADMIN_PATH_PREFIX| :: path'[k] == ADMIN_PATH_PREFIX[k] != ' ';
      assert i >= |ADMIN_PATH_PREFIX|;
    }
  }

  /** Exactly the operations whose id names them alone, over every run: those without a space in the
      path and the operationId. */
  lemma {:induction false} NamesOnlyIff(verb: string, path: string, operationId: string)
    requires KnownMethod(verb) && !(ADMIN_PATH_PREFIX <= path)
    ensures NamesOnly(ComputeOperationId(verb, path, Some(operationId)), verb, path, operationId)
        <==> ' ' !in path && ' ' !in operationId
  {
    var id := ComputeOperationId(verb, path, Some(operationId));
    if ' ' in path || ' ' in operationId {
      SpacedNamesAnother(verb, path, operationId);
    } else {
      forall events, i, j | Names(events, i, id, verb, path, operationId) && 0 <= j <= |events|
        && id in StateAt(events, j).operations
        ensures Names(events, j, id, verb, path, operationId)
      {
        UnspacedNamesOnly(events, i, j, id, verb, path, operationId);
      }
    }
  }

  // ---------- where the operations come from ----------

  /** The URL that the most recently completed refresh fetched from. */
  ghost function LastSource(events: seq<Event>): Option<string> {
    if events == [] then None
    else
      var n := |events| - 1;
      var s := After(events[..n]);
      if CompletedItems(s, events[n]).Some? then Some(s.inFlight[events[n].refresh]) else LastSource(events[..n])
  }

  ghost function UrlAt(events: seq<Event>, i: nat): string
    requires i <= |events|
  {
    if StateAt(events, i).config.Some? then StateAt(events, i).config.value.openapiUrl else ""
  }

  /** Event b starts the refresh that was in flight under this number before event e. */
  ghost predicate Started(events: seq<Event>, b: int, e: int, refresh: nat) {
    && 0 <= b < e <= |events|
    && events[b] == BeginRefresh(refresh) && StateAt(events, b).config.Some?
    && forall k :: b < k < e ==> events[k] != BeginRefresh(refresh) && !events[k].Startup?
  }

  /** The refresh that event b started is in flight with the URL it read. */
  ghost predicate Carries(events: seq<Event>, b: int, e: nat, refresh: nat)
    requires e <= |events|
  {
    && Started(events, b, e, refresh) && refresh in StateAt(events, e).inFlight
    && StateAt(events, e).inFlight[refresh] == UrlAt(events, b)
  }

  lemma {:induction false} InFlightOrigin(events: seq<Event>, e: nat, refresh: nat) returns (b: nat)
    requires e <= |events| && refresh in StateAt(events, e).inFlight
    ensures Carries(events, b, e, refresh)
    decreases e
  {
    var s, event := StateAt(events, e - 1), events[e - 1];
    StateAtStep(events, e - 1);
    InFlightStep(s, event, refresh);
    if event == BeginRefresh(refresh) && s.config.Some? {
      b := e - 1;
    } else {
      b := InFlightOrigin(events, e - 1, refresh);
      ConfigStays(events, b, e - 1);
      CarriesOn(events, b, e - 1, refresh);
    }
  }

  lemma {:induction false} CarriesOn(events: seq<Event>, b: int, e: nat, refresh: nat)
    requires e < |events| && Carries(events, b, e, refresh)
    requires events[e] != BeginRefresh(refresh) && !events[e].Startup?
    requires refresh in StateAt(events, e + 1).inFlight
    requires StateAt(events, e + 1).inFlight[refresh] == StateAt(events, e).inFlight[refresh]
    ensures Carries(events, b, e + 1, refresh)
  {
  }

  lemma InFlightStep(s: State, event: Event, refresh: nat)
    requires refresh in Step(s, event).inFlight
    ensures if event == BeginRefresh(refresh) && s.config.Some?
            then Step(s, event).inFlight[refresh] == s.config.value.openapiUrl
            else && refresh in s.inFlight && Step(s, event).inFlight[refresh] == s.inFlight[refresh]
                 && !event.Startup?
  {
  }

  lemma {:induction false} ConfigStays(events: seq<Event>, i: nat, j: nat)
    requires i <= j <= |events| && StateAt(events, i).config.Some?
    ensures StateAt(events, j).config.Some?
    decreases j
  {
    if i < j {
      ConfigStays(events, i, j - 1);
      StateAtStep(events, j - 1);
      UrlChangeResets(StateAt(events, j - 1), events[j - 1]);
    }
  }

  /** What event k reconciles. */
  ghost function DoneAt(events: seq<Event>, k: nat): Option<seq<Item>>
    requires k < |events|
  {
    CompletedItems(StateAt(events, k), events[k])
  }

  /** Event e completes a refresh, and no later event does. */
  ghost predicate Completes(events: seq<Event>, e: nat) {
    e < |events| && DoneAt(events, e).Some? && forall k :: e < k < |events| ==> DoneAt(events, k).None?
  }

  lemma {:induction false} PrefixState(events: seq<Event>, n: nat, k: nat)
    requires k <= n <= |events|
    ensures StateAt(events[..n], k) == StateAt(events, k)
    ensures k < n ==> DoneAt(events[..n], k) == DoneAt(events, k)
  {
    assert events[..n][..k] == events[..k];
  }

  lemma {:induction false} CompletesLater(events: seq<Event>, n: nat, e: nat)
    requires n + 1 == |events| && Completes(events[..n], e) && DoneAt(events, n).None?
    ensures Completes(events, e) && StateAt(events[..n], e) == StateAt(events, e)
  {
    PrefixState(events, n, e);
    forall k | e < k < n
      ensures DoneAt(events, k).None?
    {
      PrefixState(events, n, k);
    }
  }

  /** As long as the schema counts as fetched, the last completion is where it came from, and the URL
      has not changed since. */
  lemma {:induction false} LastCompletion(events: seq<Event>) returns (e: nat)
    requires Fetched(After(events))
    ensures Completes(events, e)
    ensures LastSource(events) == Some(StateAt(events, e).inFlight[events[e].refresh])
    ensures StateAt(events, e).config.Some?
    ensures After(events).config.value.openapiUrl == StateAt(events, e).config.value.openapiUrl
  {
    var n := |events| - 1;
    var s := After(events[..n]);
    OperationsStep(s, events[n]);
    if CompletedItems(s, events[n]).Some? {
      OthersKeepConfig(s, events[n]);
      e := n;
    } else {
      e := LastCompletion(events[..n]);
      CompletesLater(events, n, e);
    }
  }

  /** The active operations come from the URL now in force. */
  ghost predicate Current(events: seq<Event>) {
    LastSource(events) == Some(UrlAt(events, |events|))
  }

  /** Event e completes the last refresh that completed, and event b began it. */
  ghost predicate LastRefresh(events: seq<Event>, b: nat, e: nat) {
    Completes(events, e) && Started(events, b, e, events[e].refresh)
  }

  /** The last completed refresh, begun by event b and completed by event e, decides: its operations
      are those of the URL now in force exactly when it completed under the URL it began with. */
  lemma {:induction false} CurrentIff(events: seq<Event>)
    requires Fetched(After(events))
    ensures exists b, e :: LastRefresh(events, b, e) && (Current(events) <==> UrlAt(events, b) == UrlAt(events, e))
  {
    var e := LastCompletion(events);
    StateAtEnd(events);
    var b := InFlightOrigin(events, e, events[e].refresh);
    assert LastRefresh(events, b, e) && (Current(events) <==> UrlAt(events, b) == UrlAt(events, e));
  }

  /** A refresh that began before a URL change and completed after it: the old URL's operations are
      active under the new one. */
  lemma {:induction false} StaleRefreshCompletes(oldUrl: string, newUrl: string, verb: string, path: string,
                                                 operationId: string)
    requires oldUrl != newUrl && KnownMethod(verb) && !(ADMIN_PATH_PREFIX <= path)
    ensures var run := [UpsertConfig("e", oldUrl, None), BeginRefresh(0), UpsertConfig("e", newUrl, None)]
                     + [EndRefresh(0, Declaring(verb, path, operationId), 0)];
      && After(run).config.Some? && After(run).config.value.openapiUrl == newUrl
      && ActiveIds(After(run).operations) == {ComputeOperationId(verb, path, Some(operationId))}
      && LastSource(run) == Some(oldUrl) && !Current(run)
  {
    var fetched := Declaring(verb, path, operationId);
    var before := [UpsertConfig("e", oldUrl, None), BeginRefresh(0), UpsertConfig("e", newUrl, None)];
    var run := before + [EndRefresh(0, fetched, 0)];
    assert [] + before == before;
    AfterThree([], before[0], before[1], before[2]);
    StaleSteps(oldUrl, newUrl);
    StaleEnd(before, fetched, oldUrl);
    SyncedOne(map[], verb, path, operationId);
  }

  lemma {:induction false} StaleEnd(events: seq<Event>, fetched: Fetched, oldUrl: string)
    requires fetched.FetchedDocument? && fetched.document.Paths?
    requires After(events).config.Some? && After(events).inFlight == map[0 := oldUrl]
    ensures var run := events + [EndRefresh(0, fetched, 0)];
      && After(run).operations == SyncedTable(After(events).operations, Extract(fetched.document.paths))
      && After(run).config.Some? && After(run).config.value.openapiUrl == After(events).config.value.openapiUrl
      && LastSource(run) == Some(oldUrl) && UrlAt(run, |run|) == After(events).config.value.openapiUrl
  {
    var run := events + [EndRefresh(0, fetched, 0)];
    assert run[..|events|] == events;
    AfterSnoc(events, EndRefresh(0, fetched, 0));
    StateAtEnd(run);
  }

  lemma {:induction false} StaleSteps(oldUrl: string, newUrl: string)
    requires oldUrl != newUrl
    ensures var s := Step(Step(Step(INITIAL, UpsertConfig("e", oldUrl, None)), BeginRefresh(0)), UpsertConfig("e", newUrl, None));
      && s.operations == map[] && s.inFlight == map[0 := oldUrl]
      && s.config.Some? && s.config.value.openapiUrl == newUrl
  {
  }

  // ---------- the snapshot history ----------

  /** A refresh that completes leaves a latest snapshot with the hash of the document just fetched. */
  lemma LatestSnapshotHash(s: State, event: Event)
    requires CompletedItems(s, event).Some?
    ensures var snapshots := Step(s, event).snapshots;
      && snapshots != []
      && snapshots[|snapshots| - 1].specHash == event.fetched.specHash
      && s.snapshots <= snapshots && |snapshots| <= |s.snapshots| + 1
    ensures var snapshots, diff := Step(s, event).snapshots, ResultOf(s.operations, CompletedItems(s, event).value);
      var same := s.snapshots != [] && s.snapshots[|s.snapshots| - 1].specHash == event.fetched.specHash;
      && (|snapshots| == |s.snapshots| <==> same && !diff.HasChanges())
      && (|snapshots| > |s.snapshots| ==> snapshots[|snapshots| - 1].diff == diff)
  {
    OperationsStep(s, event);
  }

  /** Two neighbours with one hash: the later one recorded a change. */
  lemma {:induction false} NeighboursDiffer(events: seq<Event>, k: nat)
    requires k + 1 < |After(events).snapshots|
    ensures var snapshots := After(events).snapshots;
      snapshots[k].specHash == snapshots[k + 1].specHash ==> snapshots[k + 1].diff.HasChanges()
  {
    if events != [] {
      var n := |events| - 1;
      var s := After(events[..n]);
      OperationsStep(s, events[n]);
      if k + 1 < |s.snapshots| {
        NeighboursDiffer(events[..n], k);
      }
    }
  }

  /** No refresh completes and no URL changes between two events. */
  ghost predicate NoSyncBetween(events: seq<Event>, i: nat, j: nat) {
    forall k :: i <= k < j && k < |events| ==>
      && CompletedItems(StateAt(events, k), events[k]).None?
      && !UrlChange(StateAt(events, k), StateAt(events, k + 1))
  }

  lemma {:induction false} TablesKeepWithoutSync(events: seq<Event>, i: nat, j: nat)
    requires i <= j <= |events| && NoSyncBetween(events, i, j)
    ensures StateAt(events, j).operations == StateAt(events, i).operations
    ensures StateAt(events, j).snapshots == StateAt(events, i).snapshots
    decreases j
  {
    if i < j {
      TablesKeepWithoutSync(events, i, j - 1);
      StateAtStep(events, j - 1);
      OperationsStep(StateAt(events, j - 1), events[j - 1]);
    }
  }

  /** Fetching the same document again adds no snapshot - exactly when the document has no admin path
      and repeats an id only with the same summary. */
  lemma RefetchAddsNoSnapshotIff(events: seq<Event>, i: nat, j: nat, items: seq<Item>)
    requires i < j < |events| && NoSyncBetween(events, i + 1, j)
    requires CompletedItems(StateAt(events, i), events[i]) == Some(items)
    requires CompletedItems(StateAt(events, j), events[j]) == Some(items)
    requires events[i].fetched.specHash == events[j].fetched.specHash
    ensures StateAt(events, j + 1).snapshots == StateAt(events, j).snapshots
        <==> (forall item <- items :: item.Kept()) && SummariesAgree(items)
  {
    var first, again := StateAt(events, i), StateAt(events, j);
    StateAtStep(events, i);
    StateAtStep(events, j);
    OperationsStep(first, events[i]);
    OperationsStep(again, events[j]);
    LatestSnapshotHash(first, events[i]);
    TablesKeepWithoutSync(events, i + 1, j);
    ResyncIsSilentIff(first.operations, items);
    NoChangesIff(again.operations, items);
  }

  // ---------- grants ----------

  /** The step writes the operation_ids of this token. */
  ghost predicate IsWrite(s: State, event: Event, tokenId: string) {
    match event
    case Create(_, id, _, _, _, _) => id == tokenId
    case Update(user, id, patch) => id == tokenId && patch.operationIds.Some? && Owned(s, user, id)
    case _ => false
  }

  ghost function WrittenIds(event: Event): seq<string> {
    match event
    case Create(_, _, _, _, _, operationIds) => operationIds
    case Update(_, _, patch) => if patch.operationIds.Some? then patch.operationIds.value else []
    case _ => []
  }

  /** Where a permission row can come from. */
  lemma PermissionStep(s: State, event: Event, p: Permission)
    requires p in Step(s, event).permissions
    ensures if IsWrite(s, event, p.tokenId) then p.operationId in WrittenIds(event)
            else p in s.permissions && !UrlChange(s, Step(s, event))
  {
    UrlChangeResets(s, event);
    match event
    case Create(_, id, _, _, _, operationIds) => SetPermissionsExactly(s.permissions, id, operationIds, p);
    case Update(_, id, patch) =>
      if patch.operationIds.Some? {
        SetPermissionsExactly(s.permissions, id, patch.operationIds.value, p);
      }
    case Delete(_, id) => WithoutTokenKeepsOthers(s.permissions, id, p);
    case _ =>
  }

  /** Event j neither writes the token's operation_ids nor changes a URL. */
  ghost predicate Untouched(events: seq<Event>, j: nat, tokenId: string)
    requires j < |events|
  {
    && !IsWrite(StateAt(events, j), events[j], tokenId)
    && !UrlChange(StateAt(events, j), StateAt(events, j + 1))
  }

  /** Event i is the most recent operation_ids write of the token, it lists the operation, and no URL
      change came after it. */
  ghost predicate JustifiedBy(events: seq<Event>, i: int, tokenId: string, operationId: string) {
    && 0 <= i < |events|
    && IsWrite(StateAt(events, i), events[i], tokenId)
    && operationId in WrittenIds(events[i])
    && forall j :: i < j < |events| ==> Untouched(events, j, tokenId)
  }

  lemma UntouchedInPrefix(events: seq<Event>, n: nat, j: nat, tokenId: string)
    requires j < n <= |events|
    ensures Untouched(events[..n], j, tokenId) <==> Untouched(events, j, tokenId)
    ensures StateAt(events[..n], j) == StateAt(events, j)
  {
    assert events[..n][..j] == events[..j] && events[..n][..j + 1] == events[..j + 1];
  }

  lemma JustifiedLater(events: seq<Event>, n: nat, i: int, tokenId: string, operationId: string)
    requires n + 1 == |events| && JustifiedBy(events[..n], i, tokenId, operationId)
    requires Untouched(events, n, tokenId)
    ensures JustifiedBy(events, i, tokenId, operationId)
  {
    UntouchedInPrefix(events, n, i, tokenId);
    forall j | i < j < |events|
      ensures Untouched(events, j, tokenId)
    {
      if j < n {
        UntouchedInPrefix(events, n, j, tokenId);
      }
    }
  }

  /** Every permission row of every reachable state is justified. */
  lemma {:induction false} PermissionsAreJustified(events: seq<Event>, p: Permission)
    requires p in After(events).permissions
    ensures exists i :: JustifiedBy(events, i, p.tokenId, p.operationId)
  {
    var n := |events| - 1;
    var s := After(events[..n]);
    PermissionStep(s, events[n], p);
    StateAtStep(events, n);
    StateAtEnd(events);
    if IsWrite(s, events[n], p.tokenId) {
      assert JustifiedBy(events, n, p.tokenId, p.operationId);
    } else {
      PermissionsAreJustified(events[..n], p);
      var i :| JustifiedBy(events[..n], i, p.tokenId, p.operationId);
      JustifiedLater(events, n, i, p.tokenId, p.operationId);
    }
  }

  /** Grant provenance: whatever the run and the matcher, a request is forwarded only for an active
      operation that the most recent operation_ids write of its token lists, and only if no URL change
      came after that write. */
  lemma {:induction false} GrantProvenance(finder: Matcher.Finder, events: seq<Event>, request: Request,
                                           tokenId: string, operationId: string)
    requires Lists(request.order, After(events).operations)
    ensures Decide(finder, After(events), request) == Forwarded(tokenId, operationId) ==>
      && (exists i :: JustifiedBy(events, i, tokenId, operationId))
      && operationId in ActiveIds(After(events).operations)
      && LastCompleted(events).Some? && operationId in TargetIds(LastCompleted(events).value)
  {
    if Decide(finder, After(events), request) == Forwarded(tokenId, operationId) {
      PermissionsAreJustified(events, Permission(tokenId, operationId));
      Freshness(events);
    }
  }

  lemma PermissionStays(s: State, event: Event, p: Permission)
    requires p in s.permissions && !IsWrite(s, event, p.tokenId) && !UrlChange(s, Step(s, event))
    requires p.tokenId in s.tokens && p.tokenId in Step(s, event).tokens
    ensures p in Step(s, event).permissions
  {
    match event
    case Create(_, id, _, _, _, operationIds) => SetPermissionsExactly(s.permissions, id, operationIds, p);
    case Update(_, id, patch) =>
      if patch.operationIds.Some? {
        SetPermissionsExactly(s.permissions, id, patch.operationIds.value, p);
      }
    case Delete(_, id) => WithoutTokenKeepsOthers(s.permissions, id, p);
    case _ =>
  }

  lemma WriteGrants(s: State, event: Event, p: Permission)
    requires IsWrite(s, event, p.tokenId) && p.operationId in WrittenIds(event)
    ensures p in Step(s, event).permissions
  {
    match event
    case Create(_, id, _, _, _, operationIds) => SetPermissionsExactly(s.permissions, id, operationIds, p);
    case Update(_, id, patch) => SetPermissionsExactly(s.permissions, id, patch.operationIds.value, p);
  }

  lemma {:induction false} JustifiedEarlier(events: seq<Event>, n: nat, i: int, tokenId: string, operationId: string)
    requires n + 1 == |events| && i < n && JustifiedBy(events, i, tokenId, operationId)
    ensures JustifiedBy(events[..n], i, tokenId, operationId) && Untouched(events, n, tokenId)
  {
    UntouchedInPrefix(events, n, i, tokenId);
    forall j | i < j < n
      ensures Untouched(events[..n], j, tokenId)
    {
      UntouchedInPrefix(events, n, j, tokenId);
    }
  }

  /** A justified permission is there for as long as its token is. */
  lemma {:induction false} JustifiedIsPermitted(events: seq<Event>, i: int, p: Permission)
    requires JustifiedBy(events, i, p.tokenId, p.operationId) && p.tokenId in After(events).tokens
    ensures p in After(events).permissions
  {
    var n := |events| - 1;
    var s := After(events[..n]);
    StateAtStep(events, n);
    StateAtEnd(events);
    if i == n {
      WriteGrants(s, events[n], p);
    } else {
      JustifiedEarlier(events, n, i, p.tokenId, p.operationId);
      TokenOrigin(s, events[n], p.tokenId);
      JustifiedIsPermitted(events[..n], i, p);
      PermissionStays(s, events[n], p);
    }
  }

  /** Exactly the permission rows of a reachable state: the token exists, its most recent operation_ids
      write lists the operation, and no URL change came after that write. */
  lemma {:induction false} PermittedIff(events: seq<Event>, p: Permission)
    ensures p in After(events).permissions <==>
      p.tokenId in After(events).tokens && exists i :: JustifiedBy(events, i, p.tokenId, p.operationId)
  {
    if p in After(events).permissions {
      PermissionsAreJustified(events, p);
      PermissionsReferToTokens(events, p);
    }
    if i :| p.tokenId in After(events).tokens && JustifiedBy(events, i, p.tokenId, p.operationId) {
      JustifiedIsPermitted(events, i, p);
    }
  }

  lemma TokenStep(s: State, event: Event, tokenId: string)
    ensures tokenId in s.tokens && !event.Delete? ==> tokenId in Step(s, event).tokens
    ensures IsWrite(s, event, tokenId) ==> tokenId in Step(s, event).tokens
  {
  }

  lemma DeleteStep(s: State, event: Event, p: Permission)
    requires event.Delete? && p in Step(s, event).permissions && p.tokenId in s.tokens
    ensures p.tokenId in Step(s, event).tokens
  {
    WithoutTokenKeepsOthers(s.permissions, event.tokenId, p);
  }

  /** Every permission row refers to an existing token. */
  lemma {:induction false} PermissionsReferToTokens(events: seq<Event>, p: Permission)
    requires p in After(events).permissions
    ensures p.tokenId in After(events).tokens
  {
    var n := |events| - 1;
    var s := After(events[..n]);
    PermissionStep(s, events[n], p);
    TokenStep(s, events[n], p.tokenId);
    if !IsWrite(s, events[n], p.tokenId) {
      PermissionsReferToTokens(events[..n], p);
      if events[n].Delete? {
        DeleteStep(s, events[n], p);
      }
    }
  }

  // ---------- access over refreshes ----------

  /** The (token, operation) pairs that are both permitted and active. */
  ghost function Access(s: State): set<Permission> {
    set p | p in s.permissions && p.operationId in ActiveIds(s.operations)
  }

  predicate TouchesGrants(event: Event) {
    event.Create? || event.Delete? || (event.Update? && event.patch.operationIds.Some?)
  }

  /** No grant writes and no URL change from event i up to event j. */
  ghost predicate GrantsQuiet(events: seq<Event>, i: nat, j: nat) {
    forall k :: i <= k < j && k < |events| ==>
      !TouchesGrants(events[k]) && !UrlChange(StateAt(events, k), StateAt(events, k + 1))
  }

  /** Nothing else, a refresh least of all, changes a permission row. */
  lemma {:induction false} PermissionsKept(events: seq<Event>, i: nat, j: nat)
    requires i <= j <= |events| && GrantsQuiet(events, i, j)
    ensures StateAt(events, j).permissions == StateAt(events, i).permissions
    decreases j
  {
    if i < j {
      PermissionsKept(events, i, j - 1);
      StateAtStep(events, j - 1);
      OnlyGrantsChangePermissions(StateAt(events, j - 1), events[j - 1]);
    }
  }

  lemma OnlyGrantsChangePermissions(s: State, event: Event)
    requires !TouchesGrants(event) && !UrlChange(s, Step(s, event))
    ensures Step(s, event).permissions == s.permissions
  {
  }

  /** Access round trip: sync a document, then any other documents, then the first one again, with no
      grant or URL writes in between: exactly the same pairs are permitted and active. */
  lemma AccessRoundTrip(events: seq<Event>, i: nat, j: nat, items: seq<Item>)
    requires i < j < |events| && GrantsQuiet(events, i + 1, j)
    requires CompletedItems(StateAt(events, i), events[i]) == Some(items)
    requires CompletedItems(StateAt(events, j), events[j]) == Some(items)
    ensures Access(StateAt(events, j + 1)) == Access(StateAt(events, i + 1))
  {
    var first, again := StateAt(events, i), StateAt(events, j);
    StateAtStep(events, i);
    StateAtStep(events, j);
    OperationsStep(first, events[i]);
    OperationsStep(again, events[j]);
    Reconciliation(first.operations, items);
    Reconciliation(again.operations, items);
    PermissionsKept(events, i + 1, j);
  }

  // ---------- revocation ----------

  /** uuid4 and token_urlsafe never repeat a value. */
  ghost predicate FreshTokens(events: seq<Event>) {
    forall i, j :: 0 <= i < j < |events| && events[i].Create? && events[j].Create? ==>
      events[i].tokenId != events[j].tokenId && events[i].raw != events[j].raw
  }

  ghost predicate IssuedAt(events: seq<Event>, i: int, tokenId: string, raw: string) {
    0 <= i < |events| && events[i].Create? && events[i].tokenId == tokenId && events[i].raw == raw
  }

  lemma TokenOrigin(s: State, event: Event, tokenId: string)
    requires tokenId in Step(s, event).tokens
    ensures var token := Step(s, event).tokens[tokenId];
      if event.Create? && event.tokenId == tokenId then event.raw == token.tokenHash
      else tokenId in s.tokens && s.tokens[tokenId].tokenHash == token.tokenHash
  {
  }

  lemma {:induction false} TokensWereIssued(events: seq<Event>, tokenId: string)
    requires tokenId in After(events).tokens
    ensures exists i :: IssuedAt(events, i, tokenId, After(events).tokens[tokenId].tokenHash)
  {
    var n := |events| - 1;
    var s, token := After(events[..n]), After(events).tokens[tokenId];
    TokenOrigin(s, events[n], tokenId);
    if events[n].Create? && events[n].tokenId == tokenId {
      assert IssuedAt(events, n, tokenId, token.tokenHash);
    } else {
      TokensWereIssued(events[..n], tokenId);
      var i :| IssuedAt(events[..n], i, tokenId, token.tokenHash);
      assert IssuedAt(events, i, tokenId, token.tokenHash);
    }
  }

  /** The UNIQUE constraint on tokens.token_hash never fires. */
  lemma {:induction false} HashesStayUnique(events: seq<Event>, a: string, b: string)
    requires FreshTokens(events)
    requires a in After(events).tokens && b in After(events).tokens
    requires After(events).tokens[a].tokenHash == After(events).tokens[b].tokenHash
    ensures a == b
  {
    var raw := After(events).tokens[a].tokenHash;
    TokensWereIssued(events, a);
    TokensWereIssued(events, b);
    var i :| IssuedAt(events, i, a, raw);
    var j :| IssuedAt(events, j, b, raw);
  }

  /** No usable token carries this raw value. */
  ghost predicate Dead(tokens: map<string, Token>, raw: string) {
    forall id <- tokens :: tokens[id].tokenHash == raw ==> tokens[id].revokedAt.Some?
  }

  lemma DeadStaysDead(s: State, event: Event, raw: string)
    requires Dead(s.tokens, raw) && !(event.Create? && event.raw == raw)
    ensures Dead(Step(s, event).tokens, raw)
  {
  }

  lemma DeadCannotAuthenticate(tokens: map<string, Token>, raw: string, header: Option<string>, now: int)
    requires Dead(tokens, raw) && Bears(header, raw)
    ensures !Authenticate(tokens, header, now).Authenticated?
  {
    ParseBearerIff(header, raw);
  }

  /** The step revokes the token, or deletes it. */
  ghost predicate Stops(s: State, event: Event, tokenId: string) {
    match event
    case Revoke(user, id, _) => id == tokenId && Owned(s, user, id)
    case Delete(user, id) => id == tokenId && Owned(s, user, id) && s.tokens[id].revokedAt.Some?
    case _ => false
  }

  lemma StopKills(events: seq<Event>, i: nat, tokenId: string)
    requires FreshTokens(events) && i < |events| && Stops(StateAt(events, i), events[i], tokenId)
    ensures var raw := StateAt(events, i).tokens[tokenId].tokenHash;
      Dead(StateAt(events, i + 1).tokens, raw) && exists k :: k < i && IssuedAt(events, k, tokenId, raw)
  {
    var s := StateAt(events, i);
    var raw := s.tokens[tokenId].tokenHash;
    StateAtStep(events, i);
    TokensWereIssued(events[..i], tokenId);
    var k :| IssuedAt(events[..i], k, tokenId, raw);
    assert IssuedAt(events, k, tokenId, raw);
    forall id | id in s.tokens && s.tokens[id].tokenHash == raw
      ensures id == tokenId
    {
      HashesStayUnique(events[..i], id, tokenId);
    }
  }

  lemma {:induction false} DeadFrom(events: seq<Event>, i: nat, j: nat, tokenId: string, raw: string, k: nat)
    requires FreshTokens(events) && k < i <= j <= |events|
    requires IssuedAt(events, k, tokenId, raw) && Dead(StateAt(events, i).tokens, raw)
    ensures Dead(StateAt(events, j).tokens, raw)
    decreases j
  {
    if i < j {
      DeadFrom(events, i, j - 1, tokenId, raw, k);
      StateAtStep(events, j - 1);
      DeadStaysDead(StateAt(events, j - 1), events[j - 1], raw);
    }
  }

  /** Permanent revocation: once its token is revoked or deleted, no later run makes a raw value
      authenticate again, whatever the header's spelling and the time. */
  lemma RevocationIsPermanent(events: seq<Event>, i: nat, j: nat, tokenId: string, header: Option<string>, now: int)
    requires FreshTokens(events) && i < j <= |events|
    requires Stops(StateAt(events, i), events[i], tokenId)
    requires Bears(header, StateAt(events, i).tokens[tokenId].tokenHash)
    ensures !Authenticate(StateAt(events, j).tokens, header, now).Authenticated?
  {
    var raw := StateAt(events, i).tokens[tokenId].tokenHash;
    StopKills(events, i, tokenId);
    var k :| k < i && IssuedAt(events, k, tokenId, raw);
    DeadFrom(events, i + 1, j, tokenId, raw, k);
    DeadCannotAuthenticate(StateAt(events, j).tokens, raw, header, now);
  }

  /** While it exists, the token counts as revoked at this time. */
  ghost predicate RevokedAs(tokens: map<string, Token>, tokenId: string, time: int) {
    tokenId in tokens ==> tokens[tokenId].revokedAt == Some(time)
  }

  lemma RevokedStep(s: State, event: Event, tokenId: string, time: int)
    requires RevokedAs(s.tokens, tokenId, time) && !(event.Create? && event.tokenId == tokenId)
    ensures RevokedAs(Step(s, event).tokens, tokenId, time)
  {
  }

  /** No later event creates a token with an id already in use. */
  lemma {:induction false} NeverReissued(events: seq<Event>, i: nat, j: nat, tokenId: string)
    requires FreshTokens(events) && i <= j < |events| && tokenId in StateAt(events, i).tokens
    ensures !(events[j].Create? && events[j].tokenId == tokenId)
  {
    TokensWereIssued(events[..i], tokenId);
    var k :| IssuedAt(events[..i], k, tokenId, StateAt(events, i).tokens[tokenId].tokenHash);
    assert events[k].Create? && events[k].tokenId == tokenId;
  }

  /** Until it is deleted, a revoked token keeps the time at which it was first revoked. */
  lemma {:induction false} FirstRevocationStays(events: seq<Event>, i: nat, j: nat, tokenId: string, time: int)
    requires FreshTokens(events) && i <= j <= |events|
    requires tokenId in StateAt(events, i).tokens && RevokedAs(StateAt(events, i).tokens, tokenId, time)
    ensures RevokedAs(StateAt(events, j).tokens, tokenId, time)
    decreases j
  {
    if i < j {
      FirstRevocationStays(events, i, j - 1, tokenId, time);
      NeverReissued(events, i, j - 1, tokenId);
      StateAtStep(events, j - 1);
      RevokedStep(StateAt(events, j - 1), events[j - 1], tokenId, time);
    }
  }

  // ---------- who may do what ----------

  /** The event manages this token, on behalf of its owner. */
  predicate Manages(event: Event, owner: int, tokenId: string) {
    match event
    case Create(_, id, _, _, _, _) => id == tokenId
    case Update(user, id, _) => id == tokenId && user == owner
    case Revoke(user, id, _) => id == tokenId && user == owner
    case Delete(user, id) => id == tokenId && user == owner
    case _ => false
  }

  lemma UnmanagedStep(s: State, event: Event, tokenId: string)
    requires tokenId in s.tokens && !Manages(event, s.tokens[tokenId].userId, tokenId)
    ensures var tokens := Step(s, event).tokens;
      tokenId in tokens && s.tokens[tokenId] == tokens[tokenId].(lastUsedAt := s.tokens[tokenId].lastUsedAt)
    ensures forall p <- Step(s, event).permissions :: p.tokenId == tokenId ==> p in s.permissions
  {
    forall p | p in Step(s, event).permissions && p.tokenId == tokenId
      ensures p in s.permissions
    {
      PermissionStep(s, event, p);
    }
  }

  /** Unless its owner manages it, a token keeps its owner, hash, name, expiry and revocation, and no
      permission is added to it, whatever other users, refreshes, restarts and requests do. */
  lemma {:induction false} OnlyOwnerManages(events: seq<Event>, i: nat, j: nat, tokenId: string)
    requires i <= j <= |events| && tokenId in StateAt(events, i).tokens
    requires forall k :: i <= k < j ==> !Manages(events[k], StateAt(events, i).tokens[tokenId].userId, tokenId)
    ensures var before, after := StateAt(events, i), StateAt(events, j);
      && tokenId in after.tokens
      && before.tokens[tokenId] == after.tokens[tokenId].(lastUsedAt := before.tokens[tokenId].lastUsedAt)
      && (forall p <- after.permissions :: p.tokenId == tokenId ==> p in before.permissions)
    decreases j
  {
    if i < j {
      OnlyOwnerManages(events, i, j - 1, tokenId);
      StateAtStep(events, j - 1);
      UnmanagedStep(StateAt(events, j - 1), events[j - 1], tokenId);
    }
  }

  lemma {:induction false} HashesAreUnique(events: seq<Event>)
    requires FreshTokens(events)
    ensures UniqueHashes(After(events).tokens)
  {
    var tokens := After(events).tokens;
    forall a, b | a in tokens && b in tokens && tokens[a].tokenHash == tokens[b].tokenHash
      ensures a == b
    {
      HashesStayUnique(events, a, b);
    }
  }

  lemma {:induction false} AuthenticatedIff(events: seq<Event>, header: Option<string>, now: int, tokenId: string)
    requires FreshTokens(events)
    ensures var tokens := After(events).tokens;
      Authenticate(tokens, header, now) == Authenticated(tokenId) <==>
        tokenId in tokens && Presents(header, tokens[tokenId], now)
  {
    HashesAreUnique(events);
    AuthenticateExactly(After(events).tokens, header, now, Authenticated(tokenId));
  }

  /** The 503 of proxy.py:107-109 is unreachable: without a config row there are no operations. */
  lemma {:induction false} NeverNotConfigured(finder: Matcher.Finder, events: seq<Event>, request: Request)
    requires Lists(request.order, After(events).operations)
    ensures !Decide(finder, After(events), request).NotConfigured?
  {
    Freshness(events);
  }

  /** Event i justifies forwarding this operation for this token: it is in the last completed refresh,
      under a schema that still counts as fetched, and the token's grant of it stands. */
  ghost predicate MayForward(events: seq<Event>, i: int, tokenId: string, operationId: string) {
    && JustifiedBy(events, i, tokenId, operationId)
    && Fetched(After(events)) && LastCompleted(events).Some? && operationId in TargetIds(LastCompleted(events).value)
  }

  /** Exactly the requests that are forwarded, told by the history of the run: the token is usable, the
      matcher names the operation, the last completed refresh declares it, and the most recent
      operation_ids write of the token lists it with no URL change after. */
  lemma {:induction false} ForwardedIff(finder: Matcher.Finder, events: seq<Event>, request: Request,
                                        tokenId: string, operationId: string)
    requires FreshTokens(events) && Lists(request.order, After(events).operations)
    ensures var s := After(events);
      Decide(finder, s, request) == Forwarded(tokenId, operationId) <==>
        && tokenId in s.tokens && Presents(request.header, s.tokens[tokenId], request.now)
        && Resolve(finder, s.cache, s.operations, request) == Some(operationId)
        && exists i :: MayForward(events, i, tokenId, operationId)
  {
    AuthenticatedIff(events, request.header, request.now, tokenId);
    PermittedIff(events, Permission(tokenId, operationId));
    ActiveIff(events, operationId);
    NeverNotConfigured(finder, events, request);
    if i :| JustifiedBy(events, i, tokenId, operationId) {
      assert operationId in ActiveIds(After(events).operations) ==> MayForward(events, i, tokenId, operationId);
    }
  }

  lemma {:induction false} ActiveIff(events: seq<Event>, operationId: string)
    ensures operationId in ActiveIds(After(events).operations) <==>
      Fetched(After(events)) && LastCompleted(events).Some? && operationId in TargetIds(LastCompleted(events).value)
  {
    Freshness(events);
  }

  /** The expiry in force after a PATCH: an omitted field keeps it, an explicit null clears it. */
  function ExpiryAfter(before: Option<int>, patch: TokenPatch): Option<int> {
    if patch.expiresAt.Some? then patch.expiresAt.value else before
  }

  /** After its owner's PATCH an unrevoked token is accepted exactly until the expiry now in force. */
  lemma {:induction false} PatchedExpiryDecides(events: seq<Event>, user: int, tokenId: string, patch: TokenPatch,
                                                header: Option<string>, now: int)
    requires FreshTokens(events) && Owned(After(events), user, tokenId)
    requires Bears(header, After(events).tokens[tokenId].tokenHash)
    requires After(events).tokens[tokenId].revokedAt.None?
    ensures var expiry := ExpiryAfter(After(events).tokens[tokenId].expiresAt, patch);
      Authenticate(After(events + [Update(user, tokenId, patch)]).tokens, header, now) == Authenticated(tokenId) <==>
        expiry.None? || now < expiry.value
  {
    var all := events + [Update(user, tokenId, patch)];
    assert all[..|events|] == events;
    AuthenticatedIff(all, header, now, tokenId);
  }

  // ---------- pinned URLs ----------

  predicate PinnedTo(preset: Option<string>, url: string) {
    preset.Some? && preset.value != "" ==> url == preset.value
  }

  /** The config row holds every non-empty preset of the running process. */
  predicate Pinned(s: State) {
    s.config.Some? ==>
      && PinnedTo(s.presets.endpointUrl, s.config.value.endpointUrl)
      && PinnedTo(s.presets.openapiUrl, s.config.value.openapiUrl)
  }

  lemma PinnedStep(s: State, event: Event)
    requires Pinned(s)
    ensures Pinned(Step(s, event))
  {
  }

  lemma {:induction false} PinsHold(events: seq<Event>)
    ensures Pinned(After(events))
  {
    if events != [] {
      PinsHold(events[..|events| - 1]);
      PinnedStep(After(events[..|events| - 1]), events[|events| - 1]);
    }
  }

  /** The presets of the running process are those of the last start. */
  lemma {:induction false} PresetsOfLastStart(events: seq<Event>, i: nat)
    requires i < |events| && events[i].Startup?
    requires forall k :: i < k < |events| ==> !events[k].Startup?
    ensures After(events).presets == events[i].presets
    decreases |events|
  {
    var n := |events| - 1;
    PresetsStep(After(events[..n]), events[n]);
    if i < n {
      PresetsOfLastStart(events[..n], i);
    }
  }

  lemma PresetsStep(s: State, event: Event)
    ensures Step(s, event).presets == if event.Startup? then event.presets else s.presets
  {
  }
}
