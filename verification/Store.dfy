/** The handlers as code that updates the tables in place. Each public method is one step of
    Authorization.Step; the theorems about runs are in AuthorizationSafety. */
module Store {
  import opened Prelude
  import opened OperationIdentity
  import opened SchemaSync
  import opened Authorization
  import Matcher = OperationMatcher
  import RequestLog
  import opened Usage

  /** What refresh_backend_schema returns, or the error it re-raises. */
  datatype RefreshOutcome = NotConfigured | Raised(error: string) | Refreshed(snapshot: Snapshot, result: SyncResult)

  /** The table when the rows in `pending` are still to be looked at. */
  ghost function PartlyDeactivated(before: Table, pending: set<string>, seen: set<string>): Table {
    map id | id in before :: if id in pending || id in seen then before[id] else before[id].(isActive := false)
  }

  /** The labels that the rows in `pending` will still contribute. */
  ghost function PendingLabels(before: Table, pending: set<string>, seen: set<string>): multiset<string>
  {
    LabelsOf(before, RemovedIds(before, seen) * pending)
  }

  lemma {:induction false} TableLess(before: Table, pending: set<string>, seen: set<string>, id: string)
    requires pending <= before.Keys && id in pending
    ensures PartlyDeactivated(before, pending - {id}, seen) ==
      if id !in seen && before[id].isActive
      then PartlyDeactivated(before, pending, seen)[id := before[id].(isActive := false)]
      else PartlyDeactivated(before, pending, seen)
  {
    assert !before[id].isActive ==> before[id].(isActive := false) == before[id];
  }

  lemma {:induction false} LabelsLess(before: Table, pending: set<string>, seen: set<string>, id: string)
    requires pending <= before.Keys && id in pending
    ensures PendingLabels(before, pending, seen) == PendingLabels(before, pending - {id}, seen)
      + if id !in seen && before[id].isActive then multiset{before[id].Label()} else multiset{}
  {
    var gone := RemovedIds(before, seen);
    if id in gone {
      LabelsOfRemove(before, gone * pending, id);
      assert gone * (pending - {id}) == gone * pending - {id};
    } else {
      assert gone * (pending - {id}) == gone * pending;
    }
  }

  lemma {:induction false} AllPending(before: Table, seen: set<string>)
    ensures PartlyDeactivated(before, before.Keys, seen) == before
    ensures PendingLabels(before, before.Keys, seen) == LabelsOf(before, RemovedIds(before, seen))
  {
    assert RemovedIds(before, seen) * before.Keys == RemovedIds(before, seen);
  }

  lemma NonePending(before: Table, seen: set<string>)
    ensures PartlyDeactivated(before, {}, seen) == Deactivate(before, seen)
    ensures PendingLabels(before, {}, seen) == multiset{}
  {
    assert RemovedIds(before, seen) * {} == {};
  }

  class Store {
    const finder: Matcher.Finder
    const cache: Matcher.CachedOperationMatcher
    var operations: Table
    var tokens: map<string, Token>
    var permissions: seq<Permission>
    var config: Option<BackendConfig>
    var snapshots: seq<Snapshot>
    var presets: Presets
    var inFlight: map<nat, string>

    ghost function View(): State
      reads this, cache
    {
      State(operations, tokens, permissions, config, snapshots, presets, inFlight, cache.View())
    }

    constructor (finder: Matcher.Finder)
      ensures View() == INITIAL && fresh(cache) && this.finder == finder
    {
      this.finder := finder;
      cache := new Matcher.CachedOperationMatcher();
      operations, tokens, permissions := map[], map[], [];
      config, snapshots := None, [];
      presets, inFlight := Presets(None, None), map[];
    }

    // ---------- routers/backend_config.py ----------

    method ResetOperationsAndPermissions()
      modifies this`operations, this`permissions
      ensures operations == map[] && permissions == []
    {
      permissions := [];
      operations := map[];
    }

    /** A restart of the process: its memory is gone, then the presets are enforced. */
    method Start(newPresets: Presets)
      modifies this, cache
      ensures View() == Step(old(View()), Startup(newPresets))
    {
      presets := newPresets;
      inFlight := map[];
      cache.Clear();
      if presets.endpointUrl.None? && presets.openapiUrl.None? {
        return;
      }
      if config.None? {
        if presets.endpointUrl.None? || presets.openapiUrl.None? {
          return;
        }
        config := Some(NewConfig(presets.endpointUrl.value, presets.openapiUrl.value, None));
        return;
      }
      var row := config.value;
      var endpointUrl := Override(presets.endpointUrl, row.endpointUrl);
      var openapiUrl := Override(presets.openapiUrl, row.openapiUrl);
      if row.endpointUrl != endpointUrl || row.openapiUrl != openapiUrl {
        ResetOperationsAndPermissions();
        row := row.(lastFetchedAt := None);
      }
      config := Some(row.(endpointUrl := endpointUrl, openapiUrl := openapiUrl));
    }

    method PutBackendConfig(payloadEndpointUrl: string, payloadOpenapiUrl: string, interval: Option<int>)
      modifies this
      ensures View() == Step(old(View()), UpsertConfig(payloadEndpointUrl, payloadOpenapiUrl, interval))
    {
      var endpointUrl := Override(presets.endpointUrl, payloadEndpointUrl);
      var openapiUrl := Override(presets.openapiUrl, payloadOpenapiUrl);
      if config.None? {
        config := Some(NewConfig(endpointUrl, openapiUrl, interval));
      } else {
        var row := config.value;
        if row.endpointUrl != endpointUrl || row.openapiUrl != openapiUrl {
          ResetOperationsAndPermissions();
          row := row.(lastFetchedAt := None);
        }
        config := Some(row.(endpointUrl := endpointUrl, openapiUrl := openapiUrl, syncInterval := interval));
      }
    }

    // ---------- services/schema_sync.py ----------

    static method ExtractOperations(paths: seq<(string, PathNode)>) returns (items: seq<Item>)
      ensures items == Extract(paths)
    {
      items := [];
      for i := 0 to |paths|
        invariant items == Extract(paths[..i])
      {
        assert paths[..i + 1][..i] == paths[..i];
        if paths[i].1.PathObject? {
          ghost var before := items;
          var path, entries := paths[i].0, paths[i].1.entries;
          for j := 0 to |entries|
            invariant items == before + ExtractPath(path, entries[..j])
          {
            assert entries[..j + 1][..j] == entries[..j];
            if KnownMethod(entries[j].0) && entries[j].1.OperationObject? {
              items := items + [MakeItem(path, entries[j])];
            }
          }
          assert entries[..|entries|] == entries;
        }
      }
      assert paths[..|paths|] == paths;
    }

    method SyncOperations(items: seq<Item>) returns (result: SyncResult)
      modifies this`operations
      ensures operations == SyncedTable(old(operations), items)
      ensures result == ResultOf(old(operations), items)
      ensures result.skippedAdminConflict == LabelsAt(items, AdminPositions(items))
      ensures result.added == LabelsAt(items, AddPositions(old(operations), items))
      ensures result.updated == LabelsAt(items, UpdatePositions(old(operations), items))
      ensures ActiveIds(operations) == TargetIds(items)
    {
      var seen: set<string>, added: seq<string>, updated: seq<string>, skipped: seq<string> := {}, [], [], [];
      for i := 0 to |items|
        invariant Progress(operations, seen, added, updated, skipped) == Fold(old(operations), items[..i])
      {
        assert items[..i + 1][..i] == items[..i];
        var item := items[i];
        if !item.Kept() {
          skipped := skipped + [item.Label()];
        } else {
          seen := seen + {item.operationId};
          if item.operationId !in operations {
            operations := operations[item.operationId := NewRow(item)];
            added := added + [item.Label()];
          } else {
            var existing := operations[item.operationId];
            var changed := existing.summary != item.summary || !existing.isActive;
            operations := operations[item.operationId := existing.(summary := item.summary, isActive := true)];
            if changed {
              updated := updated + [item.Label()];
            }
          }
        }
      }
      assert items[..|items|] == items;
      var removed := DeactivateUnseen(seen);
      result := SyncResult(added, updated, removed, skipped);
      Reconciliation(old(operations), items);
      DiffExactly(old(operations), items);
    }

    /** The second loop of sync_operations, over the table in whatever order the SELECT returns it. */
    method DeactivateUnseen(seen: set<string>) returns (removed: multiset<string>)
      modifies this`operations
      ensures operations == Deactivate(old(operations), seen)
      ensures removed == LabelsOf(old(operations), RemovedIds(old(operations), seen))
    {
      removed := multiset{};
      var pending := operations.Keys;
      ghost var before := operations;
      AllPending(before, seen);
      while pending != {}
        invariant pending <= before.Keys
        invariant operations == PartlyDeactivated(before, pending, seen)
        invariant removed + PendingLabels(before, pending, seen) == LabelsOf(before, RemovedIds(before, seen))
        decreases pending
      {
        var id :| id in pending;
        TableLess(before, pending, seen, id);
        LabelsLess(before, pending, seen, id);
        if id !in seen && operations[id].isActive {
          removed := removed + multiset{operations[id].Label()};
          operations := operations[id := operations[id].(isActive := false)];
        }
        pending := pending - {id};
      }
      NonePending(before, seen);
    }

    /** The refresh up to its await: the URL is read from the row loaded here. */
    method StartRefresh(refresh: nat) returns (found: bool)
      modifies this`inFlight
      ensures View() == Step(old(View()), BeginRefresh(refresh))
      ensures found <==> config.Some?
    {
      found := config.Some?;
      if found {
        inFlight := inFlight[refresh := config.value.openapiUrl];
      }
    }

    /** The refresh from the end of its await; there is no further await. */
    method CompleteRefresh(refresh: nat, fetched: Fetched, now: int) returns (outcome: RefreshOutcome)
      modifies this
      ensures View() == Step(old(View()), EndRefresh(refresh, fetched, now))
      ensures outcome.NotConfigured? <==> old(refresh !in inFlight || config.None?)
      ensures outcome.Refreshed? <==>
        old(refresh in inFlight && config.Some?) && fetched.FetchedDocument? && fetched.document.Paths?
      ensures outcome.Refreshed? ==>
        && snapshots != [] && outcome.snapshot == snapshots[|snapshots| - 1]
        && outcome.snapshot.specHash == fetched.specHash
        && outcome.result == ResultOf(old(operations), Extract(fetched.document.paths))
      ensures outcome.Raised? ==>
        outcome.error == if fetched.FetchFailed? then fetched.error else fetched.document.error
    {
      if refresh !in inFlight || config.None? {
        return RefreshOutcome.NotConfigured;
      }
      inFlight := inFlight - {refresh};
      if fetched.FetchFailed? || fetched.document.Malformed? {
        var error := if fetched.FetchFailed? then fetched.error else fetched.document.error;
        config := Some(config.value.(lastSyncStatus := Some(Failure), lastSyncError := Some(Truncate(error))));
        return Raised(error);
      }
      var items := ExtractOperations(fetched.document.paths);
      var result := SyncOperations(items);
      config := Some(config.value.(lastFetchedAt := Some(now), lastSyncStatus := Some(Success), lastSyncError := None));
      var snapshot := AddSnapshot(fetched.specHash, result);
      return Refreshed(snapshot, result);
    }

    /** The end of a refresh that succeeded; returns the latest snapshot. */
    method AddSnapshot(specHash: string, result: SyncResult) returns (snapshot: Snapshot)
      modifies this`snapshots
      ensures snapshots == WithSnapshot(old(snapshots), Snapshot(specHash, result))
      ensures snapshots != [] && snapshot == snapshots[|snapshots| - 1] && snapshot.specHash == specHash
    {
      if snapshots != [] && snapshots[|snapshots| - 1].specHash == specHash && !result.HasChanges() {
        return snapshots[|snapshots| - 1];
      }
      snapshot := Snapshot(specHash, result);
      snapshots := snapshots + [snapshot];
    }

    // ---------- routers/tokens.py ----------

    method RemovePermissionsOf(tokenId: string)
      modifies this`permissions
      ensures permissions == WithoutToken(old(permissions), tokenId)
    {
      var rows := permissions;
      var kept := [];
      for i := 0 to |rows|
        invariant kept == WithoutToken(rows[..i], tokenId)
      {
        assert rows[..i + 1][..i] == rows[..i];
        if rows[i].tokenId != tokenId {
          kept := kept + [rows[i]];
        }
      }
      assert rows[..|rows|] == rows;
      permissions := kept;
    }

    method WritePermissions(tokenId: string, operationIds: seq<string>)
      modifies this`permissions
      ensures permissions == SetPermissions(old(permissions), tokenId, operationIds)
      ensures forall p :: p in permissions <==>
        if p.tokenId == tokenId then p.operationId in operationIds else p in old(permissions)
    {
      RemovePermissionsOf(tokenId);
      ghost var others := permissions;
      for i := 0 to |operationIds|
        invariant permissions == others + Grants(tokenId, operationIds[..i])
      {
        permissions := permissions + [Permission(tokenId, operationIds[i])];
        assert Grants(tokenId, operationIds[..i + 1]) == Grants(tokenId, operationIds[..i]) + [Permission(tokenId, operationIds[i])];
      }
      assert operationIds[..|operationIds|] == operationIds;
      forall p
        ensures p in permissions <==>
          if p.tokenId == tokenId then p.operationId in operationIds else p in old(permissions)
      {
        SetPermissionsExactly(old(permissions), tokenId, operationIds, p);
      }
    }

    /** tokenId and raw are the fresh values drawn by uuid4 and generate_token. */
    method PostToken(user: int, tokenId: string, raw: string, name: string, expiresAt: Option<int>,
                     operationIds: seq<string>)
      modifies this
      ensures View() == Step(old(View()), Create(user, tokenId, raw, name, expiresAt, operationIds))
      ensures tokens == old(tokens)[tokenId := Token(user, name, raw, expiresAt, None, None)]
    {
      tokens := tokens[tokenId := Token(user, name, raw, expiresAt, None, None)];
      WritePermissions(tokenId, operationIds);
    }

    method PatchToken(user: int, tokenId: string, patch: TokenPatch) returns (found: bool)
      modifies this
      ensures View() == Step(old(View()), Update(user, tokenId, patch))
      ensures found <==> Owned(old(View()), user, tokenId)
    {
      if tokenId !in tokens || tokens[tokenId].userId != user {
        return false;
      }
      var token := tokens[tokenId];
      if patch.name.Some? {
        token := token.(name := patch.name.value);
      }
      if patch.expiresAt.Some? {
        token := token.(expiresAt := patch.expiresAt.value);
      }
      tokens := tokens[tokenId := token];
      if patch.operationIds.Some? {
        WritePermissions(tokenId, patch.operationIds.value);
      }
      return true;
    }

    method PostRevoke(user: int, tokenId: string, now: int) returns (found: bool)
      modifies this
      ensures View() == Step(old(View()), Revoke(user, tokenId, now))
      ensures found <==> Owned(old(View()), user, tokenId)
    {
      if tokenId !in tokens || tokens[tokenId].userId != user {
        return false;
      }
      if tokens[tokenId].revokedAt.None? {
        tokens := tokens[tokenId := tokens[tokenId].(revokedAt := Some(now))];
      }
      return true;
    }

    /** 404 for an unknown token, 403 for one that is not revoked, 204 otherwise. */
    method DeleteTokenRow(user: int, tokenId: string) returns (status: int)
      modifies this
      ensures View() == Step(old(View()), Delete(user, tokenId))
      ensures status == 204 ==> tokenId !in tokens && forall p <- permissions :: p.tokenId != tokenId
      ensures status == 404 <==> !Owned(old(View()), user, tokenId)
      ensures status == 403 <==> Owned(old(View()), user, tokenId) && old(tokens[tokenId].revokedAt).None?
      ensures status == 204 <==> Owned(old(View()), user, tokenId) && old(tokens[tokenId].revokedAt).Some?
      ensures status != 204 ==> View() == old(View())
    {
      if tokenId !in tokens || tokens[tokenId].userId != user {
        return 404;
      }
      if tokens[tokenId].revokedAt.None? {
        return 403;
      }
      RemovePermissionsOf(tokenId);
      tokens := tokens - {tokenId};
      forall p | p in permissions
        ensures p.tokenId != tokenId
      {
        WithoutTokenKeepsOthers(old(permissions), tokenId, p);
      }
      return 204;
    }

    // ---------- routers/proxy.py ----------

    method AuthenticateToken(header: Option<string>, now: int) returns (auth: AuthResult)
      requires UniqueHashes(tokens)
      ensures auth == Authenticate(tokens, header, now)
      ensures AuthHolds(tokens, header, now, auth)
      ensures auth == MissingBearer <==> header.None? || |header.value| < 7 || header.value[..7] != "Bearer "
    {
      ghost var outcome := Authenticate(tokens, header, now);
      AuthenticateExactly(tokens, header, now, outcome);
      AuthenticateExactly(tokens, header, now, MissingBearer);
      var raw := ParseBearer(header);
      if raw.None? {
        return MissingBearer;
      }
      if id :| id in tokens && tokens[id].tokenHash == raw.value {
        var token := tokens[id];
        if token.revokedAt.Some? {
          return TokenRevoked;
        }
        if token.expiresAt.Some? && token.expiresAt.value <= now {
          return TokenExpired;
        }
        return Authenticated(id);
      }
      return InvalidToken;
    }

    method ResolveOperation(request: Request) returns (operationId: Option<string>)
      requires Lists(request.order, operations)
      modifies cache
      ensures operationId == Resolve(finder, old(cache.View()), operations, request)
      ensures cache.View() == Matcher.Refilled(old(cache.View()), RowsInOrder(operations, request.order))
    {
      var index := cache.Get(RowsInOrder(operations, request.order));
      var found := Matcher.Match(finder, index, request.verb, request.path);
      if found.None? || found.value !in request.order {
        return None;
      }
      return found;
    }

    /** The check sequence of `proxy`, up to and including the lookup of the config row. */
    method CheckRequest(request: Request) returns (decision: Decision)
      requires UniqueHashes(tokens) && Lists(request.order, operations)
      modifies cache
      ensures decision == Decide(finder, old(View()), request)
      ensures DecisionHolds(finder, old(View()), request, decision)
      ensures View() == Step(old(View()), Proxy(request))
    {
      DecideExactly(finder, View(), request, Decide(finder, View(), request));
      var auth := AuthenticateToken(request.header, request.now);
      if !auth.Authenticated? {
        return Unauthenticated(auth);
      }
      var operation := ResolveOperation(request);
      if operation.None? {
        return NoOperation(auth.tokenId);
      }
      if !operations[operation.value].isActive || Permission(auth.tokenId, operation.value) !in permissions {
        return Forbidden(auth.tokenId, operation.value);
      }
      if config.None? {
        return Decision.NotConfigured(auth.tokenId, operation.value);
      }
      return Forwarded(auth.tokenId, operation.value);
    }

    /** The rest of `proxy`: every request writes one log row, and an answered one touches its token. If
        that token was deleted while the upstream was awaited, the commit of both fails (500). */
    method FinishRequest(request: Request, decision: Decision, upstream: Upstream, now: int, latencyMs: int,
                         prunedAt: Option<int>, log: RequestLog.RequestLogTable)
      returns (status: int)
      modifies this, log
      ensures var answered := decision.Forwarded? && upstream.Answered?;
        var lost := answered && decision.tokenId !in old(tokens);
        && View() == (if answered then Step(old(View()), Responded(decision.tokenId, now)) else old(View()))
        && log.rows == (if lost then old(log.rows) else RequestLog.Recorded(old(log.rows),
             RequestLog.Insert(LogRow(request, decision, upstream, latencyMs, now), prunedAt), log.retentionDays))
        && status == (if lost then 500 else StatusOf(decision, upstream))
    {
      if decision.Forwarded? && upstream.Answered? {
        if decision.tokenId !in tokens {
          return 500;
        }
        tokens := tokens[decision.tokenId := tokens[decision.tokenId].(lastUsedAt := Some(now))];
      }
      status := StatusOf(decision, upstream);
      log.RecordRequestLog(LogRow(request, decision, upstream, latencyMs, now), prunedAt);
    }
  }
}
