# scope-proxy backend: a verified model

scope-proxy forwards a request only when a token has been granted the operation that the request
matches. Which operations exist is read from an OpenAPI document that is fetched again and again,
while administrators edit tokens and the backend URL. This project models the parts of
`backend/app` whose correctness spans many steps, and proves what holds over whole runs.

| file | what it models |
|---|---|
| `OperationIdentity.dfy` | the identity "METHOD path operationId" of an operation, and reading it back |
| `SchemaSync.dfy` | extraction from a document, reconciliation of the operations table, the diff |
| `OperationMatcher.dfy` | the path index, its sorted fingerprint and the single-slot cache |
| `RateLimiter.dfy`, `Login.dfy` | the sliding window limiter, and logins interleaving over it |
| `LoginHistory.dfy` | when a login is refused, told by earlier logins, and which logins cannot matter to it |
| `SyncScheduler.dfy` | the tick loop that decides when a scheduled sync runs |
| `Migrations.dfy` | the migration runner with a crash possible between any two commits |
| `RequestLog.dfy` | the request log with random pruning, and the usage summary |
| `Authorization.dfy` | the tables, and every handler, refresh, restart and request as one atomic step |
| `AuthorizationSafety.dfy` | what holds over every run of those steps from an empty database |
| `TokenHistory.dfy` | a token's fields, existence and acceptance, told by the events of its run |
| `RoutingSafety.dfy` | how requests are routed in every reachable state |
| `Usage.dfy` | the usage summary of a run, from its requests to the three counts |
| `Store.dfy` | the same handlers as methods of a class that updates the tables in place |

Code that updates state is a class or a method with loops (`Store`, `LoginRateLimiter`,
`CachedOperationMatcher`, `Database`, `RequestLogTable`, the scheduler loop). Each such method is
proved to do what one specification function does, and the theorems are about those functions: a run
is any sequence of events, and a refresh is two events, because anything may happen while it awaits
the fetch.

Idealisations: sha256 is injective, so a hash is represented by what is hashed; `uuid4` and
`token_urlsafe` never repeat a value (`FreshTokens`); clocks do not go back, and snapshots are kept in
the order of `fetched_at`. Inputs of the model that the program takes from outside: the outcome of a
fetch, the order in which a SELECT returns rows, whether an insert prunes, when the process stops, what
a migration script does or that it raises, the upstream's answer, and openapi-core's path finder, of
which it is only assumed that it returns operation ids found in the index it was given (`FinderOk`).
Updating a row that is gone fails the commit, as SQLAlchemy does.

## Where the code does not do what its comments say

The model follows the code. In each case the exact condition is proved.

- `backend/app/services/schema_sync.py:155` says that method, path and operationId cannot differ under
  one hash. Path and operationId are joined with a space, so they can: `IdentityAmbiguousIff` shows
  that it takes a space in the path or in the operationId, and `NamesOnlyIff` that exactly then some run
  makes the id name another operation. `SpacedPathsCollide` is a pair of operations with one id.
- `backend/app/routers/usage.py:13-14` says that 401, 403 and 404 mean that the proxy rejected the
  request. `DeniedMeansRejectedIff`: the summary of a run counts exactly its rejected requests if and
  only if the upstream answered none of the forwarded ones with one of these. The proxy's own 503
  (`backend/app/routers/proxy.py:107-109`) plays no part: it is unreachable (`NeverNotConfigured`).
- `README.md:113` calls the migrations idempotent. The ALTER TABLE scripts, such as
  `backend/migrations/0005_backend_config_sync_status.sql`, are not: repeating one raises.
  `RepairsIffRepeatSafe` shows that crash recovery is guaranteed exactly when each script may be repeated
  right after itself, and `StuckForeverIff` that a crash between a script and its record blocks every
  later start for ever exactly when the script raises on its own result.
- The cache key ignores the order of the rows and the index does not. `CacheAgreesIff` and
  `RoutesAsFreshIff`: requests are routed as by a fresh build exactly when no two rows share a path and
  lower-cased method. `StaleRouteForbids` is a run in which a renamed operationId leaves two such rows
  and a request is refused that a fresh build would have let through.
- A usage summary is independent of pruning only up to the retention time (`PruningInvisibleIff`); the
  endpoint accepts up to 90 days, and the default retention is 30 days (`backend/app/config.py:23`).
- `has_changes` is true for some table that a sync leaves alone unless the document has no admin path and
  repeated ids agree on the summary: exactly then it means that the table changed (`DiffIsTruthfulIff`).
  `RepeatedIdReportsPhantomUpdates` is a document with `get` and `GET` under one path.
- A refresh that began before a URL change may complete after it, so the active operations can be those
  of a URL no longer in force (`StaleRefreshCompletes`); `CurrentIff` says exactly when they are not.

## Model

| member | source | states |
|---|---|---|
| OperationIdentity.IdentityRoundTrip | backend/app/services/schema_sync.py:41-49 | for a known method and a path without a space, the digested string can be parsed back into method, path and operationId-or-empty |
| OperationIdentity.IdentityIsInjective | backend/app/services/schema_sync.py:155-156 | equal ids mean equal method, path and operationId-or-empty, for paths without a space |
| OperationIdentity.IdentityAmbiguousIff | backend/app/models/operation.py:5-12 | some other endpoint, of whatever method, has the same id if and only if there is a space in the path or the operationId |
| OperationIdentity.SpacedPathsCollide | backend/app/services/schema_sync.py:48 | two concrete different endpoints with one id |
| OperationIdentity.CaseExactly | backend/app/services/schema_sync.py:48 | upper and lower case map the 26 letters to each other, one by one, and leave all other characters |
| OperationIdentity.KnownMethodsExactly | backend/app/services/schema_sync.py:97 | a method is accepted if and only if its upper case is one of the seven |
| OperationIdentity.KnownMethodHasNoSpace | backend/app/services/schema_sync.py:97-98 | an accepted method contains no space and is never the "parameters" key of the path index |
| SchemaSync.ExtractExactly | backend/app/services/schema_sync.py:90-111 | an item is extracted if and only if some object entry with a known method under an object path item declares it |
| SchemaSync.ExtractConcat | backend/app/services/schema_sync.py:93-110 | extraction keeps the order of the document, path by path |
| SchemaSync.ExtractSplitsPath | backend/app/services/schema_sync.py:94-96 | within a path it goes entry by entry; a path item that is no object yields nothing |
| SchemaSync.ExtractOneEntry | backend/app/services/schema_sync.py:97-110 | one entry yields one item with its own method, path, operationId and summary, or nothing |
| SchemaSync.ExtractedFromDocument | backend/app/services/schema_sync.py:103-109 | every extracted item carries the id computed from its own fields |
| SchemaSync.Reconciliation | backend/app/services/schema_sync.py:121-171 | for any table and items: active ids are the non-admin ids, the id set grows by exactly those, old rows keep method, path and operationId, unseen rows only lose their active flag, the last summary and the first endpoint win for repeated ids |
| SchemaSync.ActiveSetDependsOnLast | backend/app/services/schema_sync.py:124-129 | over any two histories of documents ending in the same one, from any two tables, the active sets are equal |
| SchemaSync.SyncKeepsWellKeyed | backend/app/services/schema_sync.py:141-152 | a sync of document items keeps every row filed under the id of its own fields |
| SchemaSync.AddedIsGrowth | backend/app/services/schema_sync.py:142-153 | the number of added labels is the growth of the table, even with repeated ids |
| SchemaSync.DiffAccounting | backend/app/services/schema_sync.py:134-171 | sizes of added and removed, and removed is the labels of exactly the previously active ids not seen |
| SchemaSync.DiffExactly | backend/app/services/schema_sync.py:136-169 | every list of the diff by positions of items: skipped are those under /_admin, added the first of each new id, updated those that find their row inactive or with another summary than the previous item with the id, else the old row, left; each removed label counted |
| SchemaSync.NoChangesIff | backend/app/services/schema_sync.py:75-76 | no changes if and only if every item is kept, already active with the same summary, and every active row is seen |
| SchemaSync.SettledIsFixed | backend/app/services/schema_sync.py:126-127 | then the sync leaves the table exactly as it was |
| SchemaSync.SyncIsIdempotent | backend/app/services/schema_sync.py:121-171 | syncing the same items a second time leaves the table as it is, whatever the items |
| SchemaSync.NoChangesMeansUnchanged | backend/app/services/schema_sync.py:75-76 | without an admin path and with agreeing summaries, "has changes" is equivalent to "the table changed" |
| SchemaSync.DiffIsTruthfulIff | backend/app/services/schema_sync.py:75-76 | that equivalence holds for every table if and only if the items have no admin path and repeated ids agree on the summary |
| SchemaSync.PhantomChanges | backend/app/services/schema_sync.py:137-162 | all other items report changes on a table that they leave alone |
| SchemaSync.RepeatedIdReportsPhantomUpdates | backend/app/services/schema_sync.py:157-162 | a document with get and GET under one path extracts one id twice, and every sync of it after the first reports updates of an unchanged table |
| SchemaSync.ResyncIsSilentIff | backend/app/services/schema_sync.py:208-210 | syncing the same document again reports nothing if and only if it has no admin path and repeated ids agree on the summary |
| OperationMatcher.BuildMinimalSpec | backend/app/services/operation_matcher.py:18-43 | the loop builds the index of the specification function Build |
| OperationMatcher.ParamNamesExactly | backend/app/services/operation_matcher.py:15-23 | the parameter names of a path are those of its word-only brace groups, from left to right |
| OperationMatcher.IndexIsLastMatch | backend/app/services/operation_matcher.py:21-37 | a lookup in the nested index is a linear scan for the last row with that path and lower-cased method; "parameters" is present exactly for templated paths |
| OperationMatcher.PermutationKeepsIndex | backend/app/services/operation_matcher.py:60-62 | permuting an unambiguous listing does not change the index |
| OperationMatcher.OrderIrrelevantIff | backend/app/services/operation_matcher.py:34-37 | every permutation gives the same index if and only if the listing is unambiguous |
| OperationMatcher.FingerprintSorts | backend/app/services/operation_matcher.py:61 | the fingerprint is sorted in Python's tuple order and a permutation of the listing |
| OperationMatcher.SortedIsUnique | backend/app/services/operation_matcher.py:61 | sorted permutations of each other are equal |
| OperationMatcher.FingerprintIffPermutation | backend/app/services/operation_matcher.py:60-62 | equal cache keys if and only if one listing is a permutation of the other |
| OperationMatcher.RefilledServesPermutation | backend/app/services/operation_matcher.py:82-87 | the slot always serves the index of some permutation of the current listing |
| OperationMatcher.CachedOperationMatcher.Get | backend/app/services/operation_matcher.py:82-87 | the new slot contents and the index returned |
| OperationMatcher.CachedOperationMatcher.Clear | backend/app/services/operation_matcher.py:89-92 | the slot is empty |
| OperationMatcher.CacheAgreesIff | backend/app/services/operation_matcher.py:69-87 | after any calls of get and clear the cached index equals a fresh build, if and only if the listing is unambiguous |
| OperationMatcher.CacheCanDisagree | backend/app/services/operation_matcher.py:34-37 | for the two rows of a renamed operation the cache names one operation and a fresh build the other |
| OperationMatcher.StoredIsListed | backend/app/services/operation_matcher.py:34-37 | every operation id in the index comes from a listed row |
| OperationMatcher.MatchIsListed | backend/app/services/operation_matcher.py:52-57 | a match through the cache names a row of the current listing, whatever the cache held |
| RateLimiter.LoginRateLimiter.PruneLocked | backend/app/auth/rate_limiter.py:28-37 | returns and stores the timestamps strictly inside the window, or drops the key |
| RateLimiter.LoginRateLimiter.IsBlocked | backend/app/auth/rate_limiter.py:39-43 | the pruned state, and whether the window holds max_attempts failures |
| RateLimiter.LoginRateLimiter.RecordFailure | backend/app/auth/rate_limiter.py:45-50 | the pruned list of the key, extended by now |
| RateLimiter.LoginRateLimiter.Reset | backend/app/auth/rate_limiter.py:52-54 | only this key is forgotten |
| RateLimiter.LoginRateLimiter.ClearAll | backend/app/auth/rate_limiter.py:56-59 | everything is forgotten |
| RateLimiter.PrunedAgrees | backend/app/auth/rate_limiter.py:28-50 | over any run with a non-decreasing clock the pruned dict and the unpruned history have the same timestamps after every cutoff still to come |
| RateLimiter.NoEmptyList | backend/app/auth/rate_limiter.py:33-36 | no key is ever kept with an empty list |
| RateLimiter.LimiterRefinement | backend/app/auth/rate_limiter.py:39-43 | is_blocked answers exactly as counting the full failure history since the last reset |
| Login.CheckLimits | backend/app/routers/auth.py:58 | both checks in order, the second only when the first passes |
| Login.Login | backend/app/routers/auth.py:52-77 | the limiter state and status code of one login |
| Login.LoginOutcome | backend/app/routers/auth.py:58-77 | 429 exactly when either key is at its limit, else 401 or 200; a 200 removes both keys and nothing else |
| Login.LoginIsSerialRun | backend/app/routers/auth.py:52-77 | the login method makes exactly the calls of one worker of the interleaving model, with this login's clock readings, names and outcome |
| Login.PhaseBalance | backend/app/routers/auth.py:58-75 | only a passed check lets a worker owe a failure; recording pays it |
| Login.StepKeepsBound | backend/app/auth/rate_limiter.py:39-54 | failures in the window plus failures owed stay within max_attempts + n - 1 at every limiter call of any worker |
| Login.RunKeepsBound | backend/app/routers/auth.py:58-75 | the same at every later cutoff, over every interleaving from boot |
| Login.ConcurrentBound | backend/app/routers/auth.py:58-75 | with n logins in flight the failures of a key in the window since its last reset never exceed max_attempts + n - 1, and are none for a limit of zero or less |
| Login.SerialBound | backend/app/routers/auth.py:58-75 | with one login at a time the bound is max_attempts |
| Login.SerialLoginsBound | backend/app/routers/auth.py:52-77 | hence any sequence of calls of the login method leaves at most max_attempts failures of a key inside the window |
| Login.BoundIsReached | backend/app/routers/auth.py:58-70 | for every n and limit an interleaving reaches the bound, so it cannot be lowered |
| Login.KeysAreInjective | backend/app/routers/auth.py:54-56 | different addresses, and different user names, have different keys |
| LoginHistory.LoginRefusedIff | backend/app/routers/auth.py:58-75 | a login is refused if and only if, in the window before it, max_attempts earlier logins of its host, or of its user, failed with no successful one of that host or user since; else its password decides |
| LoginHistory.GroupsAreIsolated | backend/app/routers/auth.py:54-58 | when hosts and users fall into two groups that no login connects, one group is answered as if the other had never logged in |
| LoginHistory.UnrelatedLogins | backend/app/routers/auth.py:54-58 | logins just before a request that share neither host nor user with it do not change its status |
| LoginHistory.UnrelatedLoginCanDecide | backend/app/routers/auth.py:58-70 | an earlier one can, through a login that connects them: a concrete history |
| SyncScheduler.MaybeRunScheduledSync | backend/app/services/schema_sync.py:247-271 | with a saved interval v it runs exactly when v is positive and has passed since the last run, without one the same for the default, and without a config row never; the new last_run_at, and a warning exactly for a sync that raised |
| SyncScheduler.SchemaSyncLoop | backend/app/services/schema_sync.py:274-291 | which ticks run and which log a failure; a tick whose read raises changes nothing |
| SyncScheduler.RunsExactlyWhenDue | backend/app/services/schema_sync.py:259-265 | a tick runs if and only if syncing is enabled and every earlier run is at least the interval just read ago |
| SyncScheduler.RunsByReading | backend/app/services/schema_sync.py:34-38 | over any ticks: a saved interval decides, zero included, whatever the default; the default only without one; without a readable config row nothing runs |
| SyncScheduler.FailuresCountAsRuns | backend/app/services/schema_sync.py:267-271 | the loop, which branches on how a sync ends, runs exactly the ticks of a schedule that does not know it, and warns about exactly those whose sync raised |
| SyncScheduler.RunsSpread | backend/app/services/schema_sync.py:34-38 | the q-th run is at least q - p minimal intervals after the p-th, while the config changes |
| SyncScheduler.RunCountBound | backend/app/services/schema_sync.py:259-271 | within a horizon H there are at most floor(H / I) + 1 runs when every positive interval is at least I |
| Migrations.Database.RunMigrations | backend/app/migration_runner.py:43-89 | where the run stands after any number of commits; it completed exactly when every file is recorded; it raised only at an unrecorded script that raises; no version is inserted twice; the applied count |
| Migrations.ResumeRecords | backend/app/migration_runner.py:63-84 | whatever the scripts do, the records stay a prefix, and an uncut run ends with all recorded or before a script that raises |
| Migrations.RecordedIsPrefix | backend/app/migration_runner.py:75-80 | after any starts, crashes and raising scripts, with files added on the way, the recorded versions are a prefix of the sorted list, each once |
| Migrations.NextStartIsIdle | backend/app/migration_runner.py:63-86 | after a start that was not cut short, another start with the same files changes nothing |
| Migrations.ResumeKeeps | backend/app/migration_runner.py:63-81 | for repeat-safe scripts, any number of commits stays in "the first k recorded, the next perhaps executed", and enough of them reach the end or a script that raises |
| Migrations.BootsKeep | backend/app/migration_runner.py:59-84 | the same after any number of starts and crashes, with files added on the way |
| Migrations.UncutRunRepairs | backend/app/migration_runner.py:63-86 | one uncut start after any crashes leaves the data and records of a database that was never interrupted |
| Migrations.UninterruptedReaches | backend/app/migration_runner.py:63-81 | a start from nothing whose scripts all succeed leaves their data, in order, and all their records |
| Migrations.SecondExecution | backend/app/migration_runner.py:72-74 | the start after a crash between script i and its record executes script i again, on its own result |
| Migrations.StuckForeverIff | backend/app/migration_runner.py:82-84 | after such a crash no later start ever records script i, if and only if script i raises on its own result |
| Migrations.RepairsIffRepeatSafe | README.md:113 | every crash history is repaired if and only if each script that a clean run reaches may be repeated right after itself |
| Migrations.IdempotentIsRepeatSafe | README.md:113 | idempotent scripts satisfy that condition |
| RequestLog.RequestLogTable.RecordRequestLog | backend/app/services/request_log_service.py:14-44 | the row is added, and a pruning insert then keeps exactly the rows at or after its cutoff |
| RequestLog.SummaryExactly | backend/app/routers/usage.py:24-40 | the summary counts the rows of the last so many times 24 hours, and of those the ones with status 401, 403 or 404 |
| RequestLog.PruningKeepsWindow | backend/app/services/request_log_service.py:40-42 | whatever inserts prune, the rows inside a window of at most the retention time are those of the full log, in order |
| RequestLog.PruningInvisibleIff | backend/app/routers/usage.py:18-40 | for every choice of when to prune and every run the summary equals that of the full log, if and only if days is at most the retention |
| RequestLog.SpacedShows | backend/app/routers/usage.py:22-29 | for every days above the retention, a run whose summary shows the pruning |
| Authorization.WithoutTokenKeepsOthers | backend/app/routers/tokens.py:38-40 | exactly the rows of the other tokens remain |
| Authorization.SetPermissionsExactly | backend/app/routers/tokens.py:37-42 | afterwards the token has exactly the listed operations, and no other token's rows change |
| Authorization.UrlChangeResets | backend/app/routers/backend_config.py:43-52 | any step that changes either URL leaves operations and permissions empty and the schema unfetched in that step; the config row never disappears |
| Authorization.FailedRefreshIsHarmless | backend/app/services/schema_sync.py:221-226 | a refresh that fails in fetch or extraction changes only the status and the error, cut to 2000 characters |
| Authorization.UpsertSaves | backend/app/routers/backend_config.py:105-126 | after a PUT each URL is the non-empty preset if there is one and else the submitted value; the interval is the submitted one |
| Authorization.StartKeeps | backend/app/routers/backend_config.py:58-63 | a start keeps the saved value of an unpinned field and the interval, and creates the row exactly when both presets are set |
| Authorization.OthersKeepConfig | backend/app/routers/backend_config.py:82-86 | no other step changes the URLs or the interval, or creates or removes the row |
| Authorization.StripExactly | backend/app/routers/proxy.py:50 | stripping returns exactly the core between any surrounding white space |
| Authorization.BearerParses | backend/app/routers/proxy.py:47-50 | a bearer header yields its token value, however much white space surrounds it |
| Authorization.WhitespaceExactly | backend/app/routers/proxy.py:50 | the code points that stripping removes |
| Authorization.ParseBearerIff | backend/app/routers/proxy.py:47-50 | no value exactly for a header that is absent or does not begin with "Bearer "; a value exactly when the header is "Bearer ", the value, and white space around it |
| Authorization.AuthenticateExactly | backend/app/routers/proxy.py:46-61 | each of the five outcomes, exactly, in terms of the header's text and the stored tokens |
| Authorization.DecideExactly | backend/app/routers/proxy.py:102-109 | each of the five decisions, exactly: 401, 404, 403 without a grant or for an inactive operation, 503, or forwarded |
| Authorization.OthersKeepStatus | backend/app/routers/backend_config.py:80-86 | only refreshes touch the sync status and error; a URL change drops the fetch time and nothing else does |
| Authorization.SuccessRecords | backend/app/services/schema_sync.py:202-205 | a successful refresh records its time and success, clears the error, and is no longer in flight |
| AuthorizationSafety.OperationsStep | backend/app/services/schema_sync.py:196-220 | operations and snapshots change only when a refresh completes or a URL changes, and how |
| AuthorizationSafety.Freshness | backend/app/services/schema_sync.py:189-226 | in every reachable state: unfetched and no operations, or the active ids are the non-admin operations of the last completed refresh |
| AuthorizationSafety.RowsAreWellKeyed | backend/app/models/operation.py:5-17 | in every reachable state each row is filed under the id of its own method, path and operationId |
| AuthorizationSafety.IdsNameOneEndpoint | backend/app/services/schema_sync.py:41-49 | one id names one endpoint in any two states of a run, across refreshes and URL resets, for paths without a space |
| AuthorizationSafety.NamesOnlyIff | backend/app/services/schema_sync.py:41-49 | no run lets the id of an operation ever name another one, if and only if there is no space in its path and operationId |
| AuthorizationSafety.InFlightOrigin | backend/app/services/schema_sync.py:197 | a refresh in flight carries the URL that was saved when it began |
| AuthorizationSafety.LastCompletion | backend/app/routers/backend_config.py:80-82 | as long as the schema counts as fetched, the URL is the one under which the last refresh completed |
| AuthorizationSafety.CurrentIff | backend/app/services/schema_sync.py:197-202 | the active operations come from the URL now in force if and only if their refresh completed under the URL it began with |
| AuthorizationSafety.StaleRefreshCompletes | backend/app/services/schema_sync.py:197-202 | a refresh begun before a URL change and completed after it: the old URL's operations are active under the new one |
| AuthorizationSafety.LatestSnapshotHash | backend/app/services/schema_sync.py:207-220 | after a completed refresh the latest snapshot has the hash just fetched; a snapshot is added unless the hash is the previous one and nothing changed, and it carries this refresh's diff |
| AuthorizationSafety.NeighboursDiffer | backend/app/services/schema_sync.py:208-215 | adjacent snapshots with one hash: the later one has a non-empty diff |
| AuthorizationSafety.RefetchAddsNoSnapshotIff | backend/app/services/schema_sync.py:208-213 | fetching the same document again adds no snapshot, if and only if it has no admin path and repeated ids agree on the summary |
| AuthorizationSafety.PermissionStep | backend/app/routers/tokens.py:37-42 | a permission row after a step comes from this step's write of its token, or was there before and no URL changed |
| AuthorizationSafety.PermissionsAreJustified | backend/app/routers/backend_config.py:44-50 | every permission row is in the most recent operation_ids write of its token, and no URL change came later |
| AuthorizationSafety.GrantProvenance | backend/app/routers/proxy.py:80-105 | a request is forwarded only for such an operation, active and in the last completed refresh, over every interleaving |
| AuthorizationSafety.PermissionsReferToTokens | backend/app/routers/tokens.py:160-163 | every permission row refers to an existing token |
| AuthorizationSafety.PermittedIff | backend/app/routers/tokens.py:37-42 | exactly the permission rows of a reachable state: the token exists, its most recent operation_ids write lists the operation, and no URL change came later |
| AuthorizationSafety.PermissionsKept | backend/app/services/schema_sync.py:127-128 | no refresh, restart or request changes a permission row while no grants are written and no URL changes |
| AuthorizationSafety.AccessRoundTrip | backend/app/services/schema_sync.py:121-171 | sync a document, then any others, then the first again: exactly the same pairs are permitted and active |
| AuthorizationSafety.TokensWereIssued | backend/app/services/token_service.py:5-8 | every stored hash belongs to the value issued when the token was created |
| AuthorizationSafety.HashesStayUnique | backend/app/models/token.py:16 | the UNIQUE constraint on token_hash never fires |
| AuthorizationSafety.StopKills | backend/app/routers/tokens.py:139-163 | revoking or deleting a token leaves no usable token with its raw value |
| AuthorizationSafety.RevocationIsPermanent | backend/app/routers/proxy.py:46-61 | after that no later run makes the raw value authenticate again, at any time |
| AuthorizationSafety.FirstRevocationStays | backend/app/routers/tokens.py:142-146 | over any run, until it is deleted, a revoked token keeps the time of its first revocation |
| AuthorizationSafety.OnlyOwnerManages | backend/app/routers/tokens.py:25-29 | unless its owner manages it, a token keeps owner, hash, name, expiry and revocation and gains no permission, over any run |
| AuthorizationSafety.AuthenticatedIff | backend/app/routers/proxy.py:46-61 | in every reachable state a header authenticates as a token if and only if it is "Bearer " and the token's value, up to white space, and the token is neither revoked nor expired |
| AuthorizationSafety.NeverNotConfigured | backend/app/routers/proxy.py:107-109 | in every reachable state the 503 for a missing configuration is unreachable |
| AuthorizationSafety.ForwardedIff | backend/app/routers/proxy.py:102-109 | exactly which requests are forwarded, by the history of the run: usable token, matched operation, declared by the last completed refresh, listed by the token's most recent write with no URL change after |
| AuthorizationSafety.PatchedExpiryDecides | backend/app/routers/tokens.py:99-110 | after a PATCH the token is accepted exactly until the expiry in force: omitted keeps it, null clears it |
| TokenHistory.CreateStep | backend/app/routers/tokens.py:54-59 | a created token holds the user, name, value and expiry of its request, is neither revoked nor used, and no other token changes |
| TokenHistory.FieldsStep | backend/app/routers/tokens.py:104-108 | what any other event makes of each field of a token |
| TokenHistory.CreationOf | backend/app/routers/tokens.py:54-59 | over any run a token's owner and hash are those of its creation |
| TokenHistory.NameOf | backend/app/routers/tokens.py:105-106 | its name is the one last given by its creation or its owner's PATCH |
| TokenHistory.ExpiryOf | backend/app/routers/tokens.py:107-108 | its expiry is that of its owner's most recent PATCH that carries expires_at, else the one given at creation |
| TokenHistory.RevocationOf | backend/app/routers/tokens.py:140-147 | its revocation is its owner's first one since the creation, if there is any |
| TokenHistory.ExistsIff | backend/app/routers/tokens.py:151-163 | it exists if and only if it was created and not since revoked and then deleted by its owner |
| TokenHistory.AcceptedByHistoryIff | backend/app/routers/proxy.py:46-61 | acceptance by the history of the run: value issued at creation, never revoked since, expiry in force not reached |
| TokenHistory.ForwardedByHistoryIff | backend/app/routers/proxy.py:80-109 | forwarding by the history of the run: an accepted header, a matched operation, a standing grant of it |
| AuthorizationSafety.PinsHold | backend/app/routers/backend_config.py:105-109 | every reachable config row holds each non-empty preset of the running process |
| AuthorizationSafety.PresetsOfLastStart | backend/app/routers/backend_config.py:55-64 | those presets are the ones of the last start |
| RoutingSafety.CacheStaysOk | backend/app/services/operation_matcher.py:95-102 | the process-wide cache always holds the index of a listing with the stored key |
| RoutingSafety.MatchIsAlwaysListed | backend/app/routers/proxy.py:71-75 | in every reachable state the route is what the finder answers for the lower-cased method and the path, and it is in the listing: the second 404 is unreachable |
| RoutingSafety.RequestStep | backend/app/routers/proxy.py:102-104 | an unauthenticated request changes nothing at all, any other only fills the cache; a restart empties it |
| RoutingSafety.RoutingIsAsFresh | backend/app/routers/proxy.py:64-68 | with an unambiguous table, requests are routed by the index a fresh build would give, in any row order |
| RoutingSafety.RoutesAsFreshIff | backend/app/routers/proxy.py:64-68 | in every reachable state requests are routed as by a fresh build, in any row order, if and only if no two operations share a path and lower-cased method |
| RoutingSafety.StaleRouteForbids | backend/app/routers/proxy.py:64-88 | a run with a renamed operationId: a request is refused for the old operation, and forwarded to the new one by a fresh build |
| Store.Store.constructor | backend/app/services/operation_matcher.py:78-80 | the empty database and the empty cache |
| Store.Store.Start | backend/app/routers/backend_config.py:55-86 | a restart as one step: process memory is lost, presets are enforced |
| Store.Store.PutBackendConfig | backend/app/routers/backend_config.py:101-131 | a config upsert as one step |
| Store.Store.ResetOperationsAndPermissions | backend/app/routers/backend_config.py:43-52 | both tables are empty |
| Store.Store.ExtractOperations | backend/app/services/schema_sync.py:90-111 | the nested loops extract the items of the specification |
| Store.Store.SyncOperations | backend/app/services/schema_sync.py:121-171 | both loops: the reconciled table and the diff, with its lists by positions of items; the active ids are the non-admin ids of the document |
| Store.Store.DeactivateUnseen | backend/app/services/schema_sync.py:164-169 | the second loop in any row order: unseen rows are inactive, the labels of those that were active are returned |
| Store.Store.StartRefresh | backend/app/routers/backend_config.py:142-150 | the refresh up to its await: the URL in force is captured |
| Store.Store.CompleteRefresh | backend/app/services/schema_sync.py:196-226 | the refresh after its await as one step; when it succeeds and with which diff, or which error it re-raises; the snapshot returned is the latest one and has the fetched hash |
| Store.Store.RemovePermissionsOf | backend/app/routers/tokens.py:38-40 | the rows of one token are removed, the others keep their order |
| Store.Store.WritePermissions | backend/app/routers/tokens.py:37-42 | the token has exactly the listed operations, other tokens' rows are kept |
| Store.Store.PostToken | backend/app/routers/tokens.py:51-62 | token creation as one step, and the row it adds |
| Store.Store.PatchToken | backend/app/routers/tokens.py:94-115 | a PATCH as one step; found exactly for the owner's token |
| Store.Store.PostRevoke | backend/app/routers/tokens.py:140-147 | a revocation as one step; found exactly for the owner's token |
| Store.Store.DeleteTokenRow | backend/app/routers/tokens.py:151-163 | 404 exactly for others' tokens, 403 exactly for unrevoked ones, both without any change; else the token and all its rows are gone |
| Store.Store.AuthenticateToken | backend/app/routers/proxy.py:46-61 | the outcome of the token checks, on the text of the header |
| Store.Store.ResolveOperation | backend/app/routers/proxy.py:64-77 | the operation found through the cache, and the refilled cache |
| Store.Store.CheckRequest | backend/app/routers/proxy.py:102-109 | the decision of the whole check sequence and what it says about request and tables; nothing but the cache is written |
| Store.Store.FinishRequest | backend/app/routers/proxy.py:122-166 | one log row per request with its status; an answered request also sets last_used_at, unless its token is gone, and then nothing is written |
| Usage.RowExactly | backend/app/routers/proxy.py:140-165 | every column of a request's log row, in terms of the header, the tables and the upstream: token, operation, method, path, and status 401, 404, 403, 503, the upstream's, 504 or 502 |
| Usage.RowMatches | backend/app/routers/usage.py:13-15 | a row of a run has a denied status exactly when its request was rejected or forwarded and answered 401, 403 or 404 |
| Usage.SummaryAccounting | backend/app/routers/usage.py:24-40 | the three counts of the summary of a run, in terms of its requests, whatever inserts pruned the log |
| Usage.DeniedMeansRejectedIff | backend/app/routers/usage.py:13-15 | the denied count is the number of rejected requests in the window, if and only if no forwarded one was answered 401, 403 or 404 |

## Left out

- AuthorizationSafety.IdsNameOneEndpoint: states less than the comment at schema_sync.py:155, only for paths without a space, because the comment is false otherwise; the exact condition is AuthorizationSafety.NamesOnlyIff.
- AuthorizationSafety.PinsHold: says nothing about empty-string presets, which the code does not enforce.
- OperationMatcher.MatchIsListed: the finder's choice among several matching path templates is openapi-core's and stays an input; it is taken to depend on what the index holds, not on the order of its keys.
- Migrations.Database.RunMigrations: a script that raises leaves the data as it was; partial execution of a script, random values in a script (0002), files inserted before already recorded ones, and SQL itself are not modelled.
- LoginHistory.GroupsAreIsolated: a sufficient condition; that a single login shares neither host nor user with a later one is not enough (LoginHistory.UnrelatedLoginCanDecide), and which statuses a given login changes is read from the counts of LoginHistory.LoginRefusedIff.
- Usage.DeniedMeansRejectedIff: only for windows within the retention time, because older rows may be pruned; RequestLog.PruningInvisibleIff shows that this is the exact limit.
- Store.Store.PostToken: the two commits of create_token are one step; between them the token exists without permissions.
- Store.Store.CompleteRefresh: exceptions raised after extraction (while flushing or committing, or for text that cannot be encoded) are not modelled, nor is the session's rule of writing back only changed columns.
- SyncScheduler.SchemaSyncLoop: an error that escapes after a sync already ran, when closing the session, is not modelled.
- Handlers are atomic steps, although they run in a threadpool and two of them could interleave inside the database session.
- operationId and summary values that are not strings, word characters beyond ASCII in path templates, and Unicode case conversion of methods and user names; a login takes the user name already lower-cased.
- The removed labels are a multiset because the SELECT has no order; the JSON text of the diff summary is not produced.
- Collisions of a real sha256, including those of the 128-bit prefix used for operation ids.
- That two time stamps may be equal: snapshots with equal fetched_at have no defined latest one.
- HTTP forwarding, header filtering, streaming, sessions, password checks, user, setup, listing and health endpoints, and the frontend: input and output or simple plumbing.
