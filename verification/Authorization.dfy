/** The authorization state machine: what each admin handler, schema refresh, restart and proxied
    request does to the tables, as one atomic step each. A refresh is two steps, because the fetch
    in schema_sync.py awaits and anything may happen meanwhile.
    Token hashes are idealised as injective: a hash is represented by the raw value. */
module Authorization {
  import opened Prelude
  import opened OperationIdentity
  import opened SchemaSync
  import Matcher = OperationMatcher

  // ---------- the tables ----------

  datatype Token = Token(userId: int, name: string, tokenHash: string, expiresAt: Option<int>,
                         revokedAt: Option<int>, lastUsedAt: Option<int>)

  datatype Permission = Permission(tokenId: string, operationId: string)

  datatype SyncStatus = Success | Failure

  datatype BackendConfig = BackendConfig(endpointUrl: string, openapiUrl: string, lastFetchedAt: Option<int>,
                                         lastSyncStatus: Option<SyncStatus>, lastSyncError: Option<string>,
                                         syncInterval: Option<int>)

  datatype Snapshot = Snapshot(specHash: string, diff: SyncResult)

  /** ENDPOINT_URL and OPENAPI_URL of the running process. */
  datatype Presets = Presets(endpointUrl: Option<string>, openapiUrl: Option<string>)

  /** The database, and the process: its presets, the refreshes that await a fetch (with the URL they
      fetch from) and the matcher cache. Snapshots are in the order of fetched_at. */
  datatype State = State(operations: Table, tokens: map<string, Token>, permissions: seq<Permission>,
                         config: Option<BackendConfig>, snapshots: seq<Snapshot>,
                         presets: Presets, inFlight: map<nat, string>, cache: Matcher.Slot)

  const INITIAL := State(map[], map[], [], None, [], Presets(None, None), map[], Matcher.EMPTY_SLOT)

  // ---------- routers/backend_config.py ----------

  /** Python's `preset or fallback`. */
  function Override(preset: Option<string>, fallback: string): string {
    if preset.Some? && preset.value != "" then preset.value else fallback
  }

  function NewConfig(endpointUrl: string, openapiUrl: string, interval: Option<int>): BackendConfig {
    BackendConfig(endpointUrl, openapiUrl, None, None, None, interval)
  }

  /** Moves an existing row to the given URLs; a change wipes operations and permissions. */
  function MoveTo(s: State, endpointUrl: string, openapiUrl: string): State
    requires s.config.Some?
  {
    var config := s.config.value;
    if config.endpointUrl == endpointUrl && config.openapiUrl == openapiUrl then s
    else
      s.(operations := map[], permissions := [],
         config := Some(config.(endpointUrl := endpointUrl, openapiUrl := openapiUrl, lastFetchedAt := None)))
  }

  function ApplyEnvConfigOverrides(s: State): State {
    var p := s.presets;
    if p.endpointUrl.None? && p.openapiUrl.None? then s
    else if s.config.None? then
      if p.endpointUrl.None? || p.openapiUrl.None? then s
      else s.(config := Some(NewConfig(p.endpointUrl.value, p.openapiUrl.value, None)))
    else
      MoveTo(s, Override(p.endpointUrl, s.config.value.endpointUrl), Override(p.openapiUrl, s.config.value.openapiUrl))
  }

  function UpsertBackendConfig(s: State, endpointUrl: string, openapiUrl: string, interval: Option<int>): State {
    var endpoint, openapi := Override(s.presets.endpointUrl, endpointUrl), Override(s.presets.openapiUrl, openapiUrl);
    if s.config.None? then s.(config := Some(NewConfig(endpoint, openapi, interval)))
    else
      var moved := MoveTo(s, endpoint, openapi);
      moved.(config := Some(moved.config.value.(syncInterval := interval)))
  }

  // ---------- services/schema_sync.py ----------

  /** What a fetch brings back; the hash is that of the whole document. */
  datatype Fetched = FetchFailed(error: string) | FetchedDocument(document: Document, specHash: string)

  const MAX_ERROR_LENGTH := 2000

  function Truncate(error: string): string {
    if |error| > MAX_ERROR_LENGTH then error[..MAX_ERROR_LENGTH] else error
  }

  function RefreshFailed(s: State, error: string): State
    requires s.config.Some?
  {
    s.(config := Some(s.config.value.(lastSyncStatus := Some(Failure), lastSyncError := Some(Truncate(error)))))
  }

  function WithSnapshot(snapshots: seq<Snapshot>, snapshot: Snapshot): seq<Snapshot> {
    if snapshots != [] && snapshots[|snapshots| - 1].specHash == snapshot.specHash && !snapshot.diff.HasChanges()
    then snapshots
    else snapshots + [snapshot]
  }

  ghost function RefreshSucceeded(s: State, items: seq<Item>, specHash: string, now: int): State
    requires s.config.Some?
  {
    s.(operations := SyncedTable(s.operations, items),
       config := Some(s.config.value.(lastFetchedAt := Some(now), lastSyncStatus := Some(Success), lastSyncError := None)),
       snapshots := WithSnapshot(s.snapshots, Snapshot(specHash, ResultOf(s.operations, items))))
  }

  ghost function FinishRefresh(s: State, fetched: Fetched, now: int): State
    requires s.config.Some?
  {
    match fetched
    case FetchFailed(error) => RefreshFailed(s, error)
    case FetchedDocument(Malformed(error), _) => RefreshFailed(s, error)
    case FetchedDocument(Paths(paths), specHash) => RefreshSucceeded(s, Extract(paths), specHash, now)
  }

  // ---------- routers/tokens.py ----------

  function WithoutToken(permissions: seq<Permission>, tokenId: string): seq<Permission> {
    if permissions == [] then []
    else
      var n := |permissions| - 1;
      WithoutToken(permissions[..n], tokenId) + if permissions[n].tokenId != tokenId then [permissions[n]] else []
  }

  function Grants(tokenId: string, operationIds: seq<string>): seq<Permission> {
    seq(|operationIds|, i requires 0 <= i < |operationIds| => Permission(tokenId, operationIds[i]))
  }

  function SetPermissions(permissions: seq<Permission>, tokenId: string, operationIds: seq<string>): seq<Permission> {
    WithoutToken(permissions, tokenId) + Grants(tokenId, operationIds)
  }

  predicate Owned(s: State, user: int, tokenId: string) {
    tokenId in s.tokens && s.tokens[tokenId].userId == user
  }

  function CreateToken(s: State, tokenId: string, token: Token, operationIds: seq<string>): State {
    s.(tokens := s.tokens[tokenId := token], permissions := SetPermissions(s.permissions, tokenId, operationIds))
  }

  /** The fields present in a PATCH body; expiresAt can be present and null. */
  datatype TokenPatch = TokenPatch(name: Option<string>, expiresAt: Option<Option<int>>, operationIds: Option<seq<string>>)

  function Patched(token: Token, patch: TokenPatch): Token {
    token.(name := if patch.name.Some? then patch.name.value else token.name,
           expiresAt := if patch.expiresAt.Some? then patch.expiresAt.value else token.expiresAt)
  }

  function UpdateToken(s: State, user: int, tokenId: string, patch: TokenPatch): State {
    if !Owned(s, user, tokenId) then s
    else
      s.(tokens := s.tokens[tokenId := Patched(s.tokens[tokenId], patch)],
         permissions := if patch.operationIds.Some?
                        then SetPermissions(s.permissions, tokenId, patch.operationIds.value) else s.permissions)
  }

  function RevokeToken(s: State, user: int, tokenId: string, now: int): State {
    if !Owned(s, user, tokenId) || s.tokens[tokenId].revokedAt.Some? then s
    else s.(tokens := s.tokens[tokenId := s.tokens[tokenId].(revokedAt := Some(now))])
  }

  function DeleteToken(s: State, user: int, tokenId: string): State {
    if !Owned(s, user, tokenId) || s.tokens[tokenId].revokedAt.None? then s
    else s.(tokens := s.tokens - {tokenId}, permissions := WithoutToken(s.permissions, tokenId))
  }

  // ---------- routers/proxy.py ----------

  const BEARER := "Bearer "

  /** What str.strip removes. */
  predicate Whitespace(c: char) {
    || '\t' <= c <= '\r' || '\U{1c}' <= c <= ' ' || c == '\U{85}' || c == '\U{a0}' || c == '\U{1680}'
    || '\U{2000}' <= c <= '\U{200a}' || c == '\U{2028}' || c == '\U{2029}' || c == '\U{202f}'
    || c == '\U{205f}' || c == '\U{3000}'
  }

  function Strip(s: string): string {
    if s == "" then ""
    else if Whitespace(s[0]) then Strip(s[1..])
    else if Whitespace(s[|s| - 1]) then Strip(s[..|s| - 1])
    else s
  }

  /** The raw token of an Authorization header. */
  function ParseBearer(header: Option<string>): Option<string> {
    if header.Some? && BEARER <= header.value then Some(Strip(header.value[|BEARER|..])) else None
  }

  predicate Blank(s: string) {
    forall c <- s :: Whitespace(c)
  }

  /** The header value is the text between the surrounding white space, whatever there is of it. */
  lemma {:induction false} StripExactly(left: string, core: string, right: string)
    requires Blank(left) && Blank(right)
    requires core != "" ==> !Whitespace(core[0]) && !Whitespace(core[|core| - 1])
    ensures Strip(left + core + right) == core
    decreases |left| + |right|
  {
    var s := left + core + right;
    if left != "" {
      assert s[1..] == left[1..] + core + right;
      StripExactly(left[1..], core, right);
    } else if core == "" && right != "" {
      assert s[1..] == left + core + right[1..];
      StripExactly(left, core, right[1..]);
    } else if right != "" {
      var n := |right| - 1;
      assert s[..|s| - 1] == left + core + right[..n];
      StripExactly(left, core, right[..n]);
    }
  }

  lemma BearerParses(left: string, raw: string, right: string)
    requires Blank(left) && Blank(right)
    requires raw != "" ==> !Whitespace(raw[0]) && !Whitespace(raw[|raw| - 1])
    ensures ParseBearer(Some(BEARER + left + raw + right)) == Some(raw)
  {
    var header := BEARER + left + raw + right;
    assert header == BEARER + (left + raw + right);
    assert header[|BEARER|..] == left + raw + right;
    StripExactly(left, raw, right);
  }

  lemma {:induction false} WhitespaceExactly(c: char)
    ensures Whitespace(c) <==>
      var code := c as int;
      9 <= code <= 13 || 28 <= code <= 32 || code in {0x85, 0xA0, 0x1680} || 0x2000 <= code <= 0x200A
      || code in {0x2028, 0x2029, 0x202F, 0x205F, 0x3000}
  {
  }

  predicate Trimmed(raw: string) {
    raw != "" ==> !Whitespace(raw[0]) && !Whitespace(raw[|raw| - 1])
  }

  /** The header is absent, or does not begin with the bearer scheme and a space. */
  predicate NoBearer(header: Option<string>) {
    header.None? || |header.value| < 7 || header.value[..7] != "Bearer "
  }

  /** The header is the bearer scheme and this value, with nothing but white space around the value. */
  ghost predicate Bears(header: Option<string>, raw: string) {
    Trimmed(raw) && exists left, right :: Blank(left) && Blank(right) && Framed(header, left, raw, right)
  }

  predicate Framed(header: Option<string>, left: string, raw: string, right: string) {
    header == Some("Bearer " + left + raw + right)
  }

  lemma {:induction false} StripParts(s: string) returns (left: string, right: string)
    ensures Blank(left) && Blank(right) && s == left + Strip(s) + right && Trimmed(Strip(s))
  {
    left, right := "", "";
    if s != "" {
      var n := |s| - 1;
      if Whitespace(s[0]) {
        left, right := StripParts(s[1..]);
        left := [s[0]] + left;
      } else if Whitespace(s[n]) {
        left, right := StripParts(s[..n]);
        right := right + [s[n]];
      }
    }
  }

  /** Which headers yield a token value, and which value. */
  lemma {:induction false} ParseBearerIff(header: Option<string>, raw: string)
    ensures ParseBearer(header).None? <==> NoBearer(header)
    ensures ParseBearer(header) == Some(raw) <==> Bears(header, raw)
  {
    if header.Some? && BEARER <= header.value {
      var rest := header.value[7..];
      assert header.value == BEARER + rest;
      if Strip(rest) == raw {
        var left, right := StripParts(rest);
        assert BEARER + (left + raw + right) == BEARER + left + raw + right;
        assert Framed(header, left, raw, right);
      }
    }
    if Bears(header, raw) {
      var left, right :| Blank(left) && Blank(right) && Framed(header, left, raw, right);
      BearerParses(left, raw, right);
    }
  }

  datatype AuthResult = Authenticated(tokenId: string) | MissingBearer | InvalidToken | TokenRevoked | TokenExpired

  ghost function FindToken(tokens: map<string, Token>, tokenHash: string): Option<string> {
    if id :| id in tokens && tokens[id].tokenHash == tokenHash then Some(id) else None
  }

  ghost function Authenticate(tokens: map<string, Token>, header: Option<string>, now: int): AuthResult {
    var raw := ParseBearer(header);
    if raw.None? then MissingBearer
    else
      var id := FindToken(tokens, raw.value);
      if id.None? then InvalidToken
      else if tokens[id.value].revokedAt.Some? then TokenRevoked
      else if tokens[id.value].expiresAt.Some? && tokens[id.value].expiresAt.value <= now then TokenExpired
      else Authenticated(id.value)
  }

  /** The header carries this token's value, and the token is neither revoked nor expired. */
  ghost predicate Presents(header: Option<string>, token: Token, now: int) {
    && Bears(header, token.tokenHash)
    && token.revokedAt.None?
    && (token.expiresAt.None? || now < token.expiresAt.value)
  }

  /** The UNIQUE constraint on tokens.token_hash. */
  ghost predicate UniqueHashes(tokens: map<string, Token>) {
    forall a, b :: a in tokens && b in tokens && tokens[a].tokenHash == tokens[b].tokenHash ==> a == b
  }

  /** What each outcome says about the header and the tokens. */
  ghost predicate AuthHolds(tokens: map<string, Token>, header: Option<string>, now: int, auth: AuthResult) {
    match auth
    case MissingBearer => NoBearer(header)
    case InvalidToken => !NoBearer(header) && forall id <- tokens :: !Bears(header, tokens[id].tokenHash)
    case TokenRevoked => exists id <- tokens :: Bears(header, tokens[id].tokenHash) && tokens[id].revokedAt.Some?
    case TokenExpired =>
      exists id <- tokens :: Bears(header, tokens[id].tokenHash) && tokens[id].revokedAt.None?
                             && tokens[id].expiresAt.Some? && tokens[id].expiresAt.value <= now
    case Authenticated(id) => id in tokens && Presents(header, tokens[id], now)
  }

  /** Exactly when a header has which outcome. */
  lemma {:induction false} AuthenticateExactly(tokens: map<string, Token>, header: Option<string>, now: int,
                                               auth: AuthResult)
    requires UniqueHashes(tokens)
    ensures Authenticate(tokens, header, now) == auth <==> AuthHolds(tokens, header, now, auth)
  {
    forall raw
      ensures ParseBearer(header).None? <==> NoBearer(header)
      ensures ParseBearer(header) == Some(raw) <==> Bears(header, raw)
    {
      ParseBearerIff(header, raw);
    }
  }

  /** What the SELECT over operations may return: every row once, in some order. */
  ghost predicate Lists(order: seq<string>, table: Table) {
    && (forall id :: id in order <==> id in table)
    && (forall i, j :: 0 <= i < j < |order| ==> order[i] != order[j])
  }

  function RowOf(id: string, operation: Operation): Matcher.Row {
    Matcher.Row(id, operation.verb, operation.path)
  }

  function RowsInOrder(table: Table, order: seq<string>): seq<Matcher.Row>
    requires forall id <- order :: id in table
  {
    seq(|order|, i requires 0 <= i < |order| => RowOf(order[i], table[order[i]]))
  }

  /** A request at its check sequence, with the order in which the SELECT lists the operations. */
  datatype Request = Request(header: Option<string>, verb: string, path: string, now: int, order: seq<string>)

  /** The operation the cached matcher finds, if it is in the listing. */
  function Resolve(finder: Matcher.Finder, cache: Matcher.Slot, table: Table, request: Request): Option<string>
    requires forall id <- request.order :: id in table
  {
    var index := Matcher.Refilled(cache, RowsInOrder(table, request.order)).matcher.value;
    var found := Matcher.Match(finder, index, request.verb, request.path);
    if found.Some? && found.value in request.order then found else None
  }

  function EnsurePermission(s: State, tokenId: string, operationId: string): bool {
    && operationId in s.operations && s.operations[operationId].isActive
    && Permission(tokenId, operationId) in s.permissions
  }

  /** How far a request gets. */
  datatype Decision =
    | Unauthenticated(reason: AuthResult)                 // 401
    | NoOperation(tokenId: string)                        // 404
    | Forbidden(tokenId: string, operationId: string)     // 403
    | NotConfigured(tokenId: string, operationId: string) // 503
    | Forwarded(tokenId: string, operationId: string)

  ghost function Decide(finder: Matcher.Finder, s: State, request: Request): Decision
    requires Lists(request.order, s.operations)
  {
    var auth := Authenticate(s.tokens, request.header, request.now);
    if !auth.Authenticated? then Unauthenticated(auth)
    else
      var operation := Resolve(finder, s.cache, s.operations, request);
      if operation.None? then NoOperation(auth.tokenId)
      else if !EnsurePermission(s, auth.tokenId, operation.value) then Forbidden(auth.tokenId, operation.value)
      else if s.config.None? then NotConfigured(auth.tokenId, operation.value)
      else Forwarded(auth.tokenId, operation.value)
  }

  /** The only thing the check sequence writes is the process-local matcher cache. */
  ghost function AfterChecks(s: State, request: Request): State
    requires Lists(request.order, s.operations)
  {
    if Authenticate(s.tokens, request.header, request.now).Authenticated?
    then s.(cache := Matcher.Refilled(s.cache, RowsInOrder(s.operations, request.order)))
    else s
  }

  function Touch(s: State, tokenId: string, now: int): State {
    if tokenId in s.tokens then s.(tokens := s.tokens[tokenId := s.tokens[tokenId].(lastUsedAt := Some(now))]) else s
  }

  ghost predicate Admits(s: State, request: Request, tokenId: string) {
    tokenId in s.tokens && Presents(request.header, s.tokens[tokenId], request.now)
  }

  ghost predicate Granted(s: State, tokenId: string, operationId: string) {
    operationId in ActiveIds(s.operations) && Permission(tokenId, operationId) in s.permissions
  }

  /** What each decision says about the request and the tables. */
  ghost predicate DecisionHolds(finder: Matcher.Finder, s: State, request: Request, decision: Decision)
    requires Lists(request.order, s.operations)
  {
    var operation := Resolve(finder, s.cache, s.operations, request);
    match decision
    case Unauthenticated(reason) =>
      !reason.Authenticated? && AuthHolds(s.tokens, request.header, request.now, reason)
    case NoOperation(t) => Admits(s, request, t) && operation.None?
    case Forbidden(t, o) => Admits(s, request, t) && operation == Some(o) && !Granted(s, t, o)
    case NotConfigured(t, o) => Admits(s, request, t) && operation == Some(o) && Granted(s, t, o) && s.config.None?
    case Forwarded(t, o) => Admits(s, request, t) && operation == Some(o) && Granted(s, t, o) && s.config.Some?
  }

  /** Exactly when the check sequence ends in which decision. */
  lemma {:induction false} DecideExactly(finder: Matcher.Finder, s: State, request: Request, decision: Decision)
    requires UniqueHashes(s.tokens) && Lists(request.order, s.operations)
    ensures Decide(finder, s, request) == decision <==> DecisionHolds(finder, s, request, decision)
  {
    var auth := Authenticate(s.tokens, request.header, request.now);
    AuthenticateExactly(s.tokens, request.header, request.now, auth);
    match decision
    case Unauthenticated(reason) => AuthenticateExactly(s.tokens, request.header, request.now, reason);
    case _ => AuthenticateExactly(s.tokens, request.header, request.now, Authenticated(decision.tokenId));
  }

  // ---------- steps and runs ----------

  datatype Event =
    | Startup(presets: Presets)
    | UpsertConfig(endpointUrl: string, openapiUrl: string, interval: Option<int>)
    | BeginRefresh(refresh: nat)
    | EndRefresh(refresh: nat, fetched: Fetched, now: int)
    | Create(user: int, tokenId: string, raw: string, name: string, expiresAt: Option<int>, operationIds: seq<string>)
    | Update(user: int, tokenId: string, patch: TokenPatch)
    | Revoke(user: int, tokenId: string, now: int)
    | Delete(user: int, tokenId: string)
    | Proxy(request: Request)
    | Responded(tokenId: string, now: int)

  /** An event whose guard does not hold leaves the state alone. */
  ghost function Step(s: State, event: Event): State {
    match event
    case Startup(presets) =>
      ApplyEnvConfigOverrides(s.(presets := presets, inFlight := map[], cache := Matcher.EMPTY_SLOT))
    case UpsertConfig(endpointUrl, openapiUrl, interval) => UpsertBackendConfig(s, endpointUrl, openapiUrl, interval)
    case BeginRefresh(refresh) =>
      if s.config.None? then s else s.(inFlight := s.inFlight[refresh := s.config.value.openapiUrl])
    case EndRefresh(refresh, fetched, now) =>
      if refresh !in s.inFlight || s.config.None? then s
      else FinishRefresh(s, fetched, now).(inFlight := s.inFlight - {refresh})
    case Create(user, tokenId, raw, name, expiresAt, operationIds) =>
      CreateToken(s, tokenId, Token(user, name, raw, expiresAt, None, None), operationIds)
    case Update(user, tokenId, patch) => UpdateToken(s, user, tokenId, patch)
    case Revoke(user, tokenId, now) => RevokeToken(s, user, tokenId, now)
    case Delete(user, tokenId) => DeleteToken(s, user, tokenId)
    case Proxy(request) => if Lists(request.order, s.operations) then AfterChecks(s, request) else s
    case Responded(tokenId, now) => Touch(s, tokenId, now)
  }

  ghost function After(events: seq<Event>): State {
    if events == [] then INITIAL else Step(After(events[..|events| - 1]), events[|events| - 1])
  }

  /** The state before event i of a run (after the last event, for i == |events|). */
  ghost function StateAt(events: seq<Event>, i: nat): State
    requires i <= |events|
  {
    After(events[..i])
  }

  lemma StateAtStep(events: seq<Event>, i: nat)
    requires i < |events|
    ensures StateAt(events, i + 1) == Step(StateAt(events, i), events[i])
  {
    assert events[..i + 1][..i] == events[..i];
  }

  lemma {:induction false} AfterSnoc(events: seq<Event>, event: Event)
    ensures After(events + [event]) == Step(After(events), event)
  {
    assert (events + [event])[..|events|] == events;
  }

  lemma {:induction false} StateAtEnd(events: seq<Event>)
    ensures StateAt(events, |events|) == After(events)
  {
    assert events[..|events|] == events;
  }

  // ---------- facts about single steps ----------

  lemma {:induction false} WithoutTokenKeepsOthers(permissions: seq<Permission>, tokenId: string, p: Permission)
    ensures p in WithoutToken(permissions, tokenId) <==> p in permissions && p.tokenId != tokenId
  {
    if permissions != [] {
      var n := |permissions| - 1;
      assert permissions == permissions[..n] + [permissions[n]];
      WithoutTokenKeepsOthers(permissions[..n], tokenId, p);
    }
  }

  /** Setting permissions replaces those of one token by the given list, and only those. */
  lemma SetPermissionsExactly(permissions: seq<Permission>, tokenId: string, operationIds: seq<string>, p: Permission)
    ensures p in SetPermissions(permissions, tokenId, operationIds)
        <==> if p.tokenId == tokenId then p.operationId in operationIds else p in permissions
  {
    WithoutTokenKeepsOthers(permissions, tokenId, p);
    if p.tokenId == tokenId && p.operationId in operationIds {
      var i :| 0 <= i < |operationIds| && operationIds[i] == p.operationId;
      assert Grants(tokenId, operationIds)[i] == p;
    }
  }

  ghost predicate UrlChange(before: State, after: State) {
    && before.config.Some? && after.config.Some?
    && (before.config.value.endpointUrl != after.config.value.endpointUrl
        || before.config.value.openapiUrl != after.config.value.openapiUrl)
  }

  /** A step that changes either URL of an existing row leaves operations and permissions empty in
      that same step, and the schema unfetched; a row is never removed. */
  lemma UrlChangeResets(s: State, event: Event)
    ensures s.config.Some? ==> Step(s, event).config.Some?
    ensures UrlChange(s, Step(s, event)) ==>
      && Step(s, event).operations == map[]
      && Step(s, event).permissions == []
      && Step(s, event).config.value.lastFetchedAt == None
  {
  }

  /** A non-empty preset decides; without one the other value does. */
  ghost predicate Decided(preset: Option<string>, otherwise: string, url: string) {
    if preset.None? || preset.value == "" then url == otherwise else url == preset.value
  }

  /** A PUT saves what is not pinned. */
  lemma UpsertSaves(s: State, endpointUrl: string, openapiUrl: string, interval: Option<int>)
    ensures var config := Step(s, UpsertConfig(endpointUrl, openapiUrl, interval)).config;
      && config.Some? && config.value.syncInterval == interval
      && Decided(s.presets.endpointUrl, endpointUrl, config.value.endpointUrl)
      && Decided(s.presets.openapiUrl, openapiUrl, config.value.openapiUrl)
  {
  }

  /** A start keeps what is not pinned, and creates the row only from two presets. */
  lemma StartKeeps(s: State, presets: Presets)
    ensures var config := Step(s, Startup(presets)).config;
      if s.config.Some? then
        && config.Some? && config.value.syncInterval == s.config.value.syncInterval
        && Decided(presets.endpointUrl, s.config.value.endpointUrl, config.value.endpointUrl)
        && Decided(presets.openapiUrl, s.config.value.openapiUrl, config.value.openapiUrl)
      else if presets.endpointUrl.Some? && presets.openapiUrl.Some? then
        config == Some(NewConfig(presets.endpointUrl.value, presets.openapiUrl.value, None))
      else config.None?
  {
  }

  /** Nothing else touches the saved URLs or the interval. */
  lemma OthersKeepConfig(s: State, event: Event)
    requires !event.UpsertConfig? && !event.Startup?
    ensures Step(s, event).config.Some? <==> s.config.Some?
    ensures s.config.Some? ==>
      && !UrlChange(s, Step(s, event))
      && Step(s, event).config.value.syncInterval == s.config.value.syncInterval
  {
  }

  /** Outside a refresh the sync status and error stay, and the fetch time is kept or, with a URL
      change, dropped; a new row has none of the three. */
  lemma {:induction false} OthersKeepStatus(s: State, event: Event)
    requires !event.EndRefresh? && Step(s, event).config.Some?
    ensures var row := Step(s, event).config.value;
      if s.config.None? then row.lastSyncStatus.None? && row.lastSyncError.None? && row.lastFetchedAt.None?
      else
        && row.lastSyncStatus == s.config.value.lastSyncStatus && row.lastSyncError == s.config.value.lastSyncError
        && row.lastFetchedAt == if UrlChange(s, Step(s, event)) then None else s.config.value.lastFetchedAt
  {
  }

  /** A refresh that succeeds records its time, the success and no error; it ends the refresh. */
  lemma {:induction false} SuccessRecords(s: State, refresh: nat, paths: seq<(string, PathNode)>,
                                          specHash: string, now: int)
    requires refresh in s.inFlight && s.config.Some?
    ensures var s' := Step(s, EndRefresh(refresh, FetchedDocument(Paths(paths), specHash), now));
      && s'.config == Some(s.config.value.(lastFetchedAt := Some(now), lastSyncStatus := Some(Success), lastSyncError := None))
      && s'.inFlight == s.inFlight - {refresh}
  {
  }

  /** The message of the exception a fetch or an extraction raises. */
  function ErrorOf(fetched: Fetched): string
    requires fetched.FetchFailed? || fetched.document.Malformed?
  {
    if fetched.FetchFailed? then fetched.error else fetched.document.error
  }

  /** A refresh that fails in the fetch or in extraction changes nothing but the status and an error,
      which is the message cut to at most 2000 characters. */
  lemma FailedRefreshIsHarmless(s: State, refresh: nat, fetched: Fetched, now: int)
    requires refresh in s.inFlight && s.config.Some?
    requires fetched.FetchFailed? || fetched.document.Malformed?
    ensures var s', error := Step(s, EndRefresh(refresh, fetched, now)), ErrorOf(fetched);
      && s'.config.Some? && s'.config.value.lastSyncError.Some?
      && s'.config.value.lastSyncError.value <= error
      && |s'.config.value.lastSyncError.value| == (if |error| <= 2000 then |error| else 2000)
      && s' == s.(inFlight := s.inFlight - {refresh},
                  config := Some(s.config.value.(lastSyncStatus := Some(Failure),
                                                 lastSyncError := s'.config.value.lastSyncError)))
  {
    var s' := FinishRefresh(s, fetched, now);
    assert s' == RefreshFailed(s, ErrorOf(fetched));
    assert Truncate(ErrorOf(fetched)) <= ErrorOf(fetched);
  }
}
