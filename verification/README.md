# Verification of the permission, session, cache and resilience services

This project models the stateful services of the NestJS backend and proves what they
promise. The database is a map of rows, Redis a map with expiry instants, the clock a
non-decreasing number of milliseconds. Objects whose methods update fields are classes;
loops and in-place edits are methods proved against functions on values, and the theorems
are lemmas about those functions and about runs of them.

`dafny verify dfyconfig.toml` checks the whole project.

## What is modelled

- **Delegation of permissions** (`Grants`, `Snapshots`, `PermissionService`,
  `PermissionRuns`, `PermissionEngine`). Active rows are the edges of a multigraph from
  granter to user, labelled by module; it may have cycles and self-loops.
  `PermissionService` runs one operation at a time, with time passing between awaited steps,
  over the table, the cache, and the snapshots. `PermissionRuns` lets reads, fills, grants, revocations and lost
  invalidations interleave freely.
- **Query middleware** (`SoftDelete`, `ScopeFilter`): the edits of `params`, and what the
  database below then does, against a table that really deletes.
- **Circuit breaker and retry** (`CircuitBreaker`, `Retry`): a call is two events, so calls
  overlap in any way; every counter is explained by the history of events.
- **Caches** (`MultiTierCache`, `MultiTierRuns`, `WriteBehind`). `MultiTierCache` runs one
  operation at a time; `MultiTierRuns` splits reads and writes at their awaits and lets
  anything happen in between.
- **Accounts and tokens** (`Lockout`, `Sessions`, `TokenRevocation`, `PasswordHistory`,
  `RateLimit`).
- **Strings and sets** (`Sanitization`, `Fingerprint`, `PermissionAlgebra`,
  `BusinessRules`) and **organization units** (`OrganizationUnits`).

## Where the code differs from what it is for

- A re-grant with fewer actions does not cascade, so a row need not be covered by its
  granter's current row: `Grants.GrantKeepsCoverageIff` says exactly when it stays covered.
- A cascade follows the listed modules as one graph, not module by module:
  `Grants.CascadeOfUnionIff` says exactly when that takes more, `Grants.CascadeIsNotPerModule`
  shows that it can take a module from someone whose granter keeps it.
- Snapshots are taken before invalidation, so with a warm cache they record the set from
  before the change; `PermissionService.Recording` says which set.
- The soft-delete list (`src/core/database/middleware/soft-delete.middleware.ts:18`) names
  models in a form the schema does not use. The list is a parameter of the model.
- The soft-delete middleware documents that explicit `deletedAt` filters are preserved;
  behind the scope filter they are not: `ScopeFilter.Params.ReadMiddlewares`.
- Of the scoped models (`src/core/database/middleware/scope-filter.middleware.ts:46-52`) only
  `users` has the two scope columns in the schema, and a scoped `findUnique` loses its key into
  AND: `ScopeFilter.Params.ScopeFilterMiddleware` says exactly which queries still run.
- Aggregates are not filtered: `SoftDelete.AggregateAgreesIff`.
- A deleted row still holds its key and its unique values: `SoftDelete.StepRefinesIff`.
- A read under way can overwrite in memory what a later set put there:
  `MultiTierRuns.OwnWritesAreSeen`.
- The back-off recurrence is not the closed form once a shrinking delay has been capped:
  `Retry.ClosedFormIff`.
- An inactive account without a password becomes locked, and then active, through logins:
  `Lockout.InactiveStaysIff`.
- Assigning a manager does not compare organizations: `OrganizationUnits.BranchManagersStayIff`.
- The circuit breaker takes a failure time of 0 for no failure:
  `CircuitBreaker.OpenRefusesExactly`.
- Fingerprint strings of the permission cache collide as soon as names may contain one of the
  separators: `Fingerprint.PreHashTellsApartIff`.
- Permissions of a module with an empty action list are lost by the string round trip and by
  the difference: `PermissionAlgebra.PermissionMapToArray`, `MergeDifferenceCoversIff`.

## Model

| member | source | states |
|---|---|---|
| `PermissionService.PermissionService.CascadeRevokePermissions` | src/modules/permission/permission.service.ts:256-325 | On any grant graph, cycles and self-grants included, the recursive traversal ends and revokes exactly the active rows of the listed modules whose granter is reachable from the user along such rows, changing nothing else of them or of any other row, whatever order the database returns rows in; every holder gets a CASCADE_REVOKE snapshot, and every such snapshot holds its user's set from right before or right after a level at which that user lost a row; every live cache entry but those of `stale` still equals its view |
| `PermissionService.PermissionService.RevokePermissions` | src/modules/permission/permission.service.ts:150-189 | The user's own active rows in the listed modules and the cascade set of the table as it was before the call are revoked, nothing else changes, every live cache entry is right afterwards, rows covered by their granters stay covered; the first snapshot added is the user's, holding the earlier or the later set according to how warm the cache was, and each further one holds its user's set from before or after a level that took a row from that user |
| `PermissionService.PermissionService.RevokeLevel` | src/modules/permission/permission.service.ts:256-306 | One level: exactly the rows the user granted are revoked at one instant, the affected users are exactly their holders, each gets a snapshot of the set from before or after the level, and their cache entries are dropped |
| `PermissionService.PermissionService.RevokeRows` | src/modules/permission/permission.service.ts:283-296 | The transaction revokes exactly the rows found and collects exactly their holders |
| `PermissionService.PermissionService.RevokeOwnRows` | src/modules/permission/permission.service.ts:150-168 | The user's own listed rows go; only that user's cache entry may be stale meanwhile |
| `Grants.CascadeAdvance` | src/modules/permission/permission.service.ts:308-310 | What one recursive call adds to the rows already gone: still only rows that were due, and whoever held one is done or still to be visited |
| `Grants.ClosedCoversCascade` | src/modules/permission/permission.service.ts:256-310 | A set of edges holding the user's grants and the grants of every holder in it contains every reachable row: nothing is missed |
| `Grants.CascadeIsLeast` | src/modules/permission/permission.service.ts:262-310 | The cascade is the least set that holds every listed row, not revoked, granted by the user or by a holder of a row in it; a revocation takes the user's own such rows besides |
| `Grants.CascadeShrinks` | src/modules/permission/permission.service.ts:256-310 | Termination measure: a level that revokes anything leaves strictly fewer active rows in the listed modules |
| `Grants.RevokeFinish` | src/modules/permission/permission.service.ts:150-174 | Deleting the user's own rows before the cascade does not change what the cascade covers |
| `Grants.RevokeIsComplete` | src/modules/permission/permission.service.ts:150-189 | After a revocation the same revocation finds no row left |
| `Grants.RevokedModulesAreGone` | src/modules/permission/permission.service.ts:150-189 | The user keeps none of the listed modules, and nobody in the cascade keeps the module they held through the user |
| `Grants.OtherModulesKept` | src/modules/permission/permission.service.ts:150-189 | Every (user, module) outside the revoked rows has the same actions as before |
| `Grants.CascadeOfUnion` | src/modules/permission/permission.service.ts:309-309 | Revoking two module lists together takes at least what revoking each would |
| `Grants.CascadeOfUnionIff` | src/modules/permission/permission.service.ts:309-309 | It takes exactly that much if and only if nobody who loses a row granted a row of either list that stays |
| `Grants.GranterLosesTheModule` | src/modules/permission/permission.service.ts:256-325 | With one module listed, whoever loses it got it from the user being revoked or from someone who loses it too |
| `Grants.RevokeKeepsCoverage` | src/modules/permission/permission.service.ts:150-189 | If every row a manager granted is covered by the manager's own, that still holds after a revocation: what the cascade is for |
| `Grants.CascadeIsNotPerModule` | src/modules/permission/permission.service.ts:309-309 | With two modules it need not be so: for any four users and two modules there is a table, every row covered, where revoking both modules from one user takes the second from a user whose granter keeps it, which revoking each alone does not |
| `PermissionService.PermissionService.GrantPermissions` | src/modules/permission/permission.service.ts:59-141 | Granted, refused or recipient missing exactly as the Golden Rule on the granter's current rows says, a worker's refusal naming the whole request; a refusal changes no row; a grant is the sequence of upserts at one instant plus one snapshot of the earlier or the later set, the earlier one while a cache entry outlives the call and, for a manager granting to itself with no entry at the start, whenever the call takes under 300 s; all live cache entries stay right |
| `PermissionService.PermissionService.ApplyGrant` | src/modules/permission/permission.service.ts:91-126 | Upserts, then snapshot, then invalidation: the recipient's entry is the only one stale in between, and the snapshot is the earlier set exactly when a cache entry outlives the call |
| `Grants.UpsertAllRow` | src/modules/permission/permission.service.ts:92-120 | Row by row, what a grant leaves: the last entry naming a module decides its row, un-revoked and re-parented to the granter; all other rows stay |
| `Grants.GrantKeepsOtherViews` | src/modules/permission/permission.service.ts:92-120 | A grant changes nobody else's permission set |
| `Grants.GrantKeepsCoverageIff` | src/modules/permission/permission.service.ts:112-117 | "A row a manager granted is covered by the manager's current row" survives an upsert if and only if the new row is covered by its granter's and the recipient keeps all that recipients of theirs hold |
| `Grants.CoverageIsNotKept` | src/modules/permission/permission.service.ts:112-117 | A concrete re-grant with fewer actions that breaks that coverage: a re-grant does not cascade |
| `PermissionService.ValidateIsGoldenRule` | src/modules/permission/delegation-validator.service.ts:47-140 | A request is valid if and only if the granter is an owner, or a manager holding every requested (module, action); an unknown granter is reported as such, a worker lacks the whole request, and any refusal of a known granter mentions exactly the requested pairs not to hand on |
| `PermissionService.PermissionService.ValidateDelegation` | src/modules/permission/delegation-validator.service.ts:47-140 | The verdict is the one for the granter's rows in the table, even though the set comes from the cache: unknown granters are reported, owners pass, workers lack the whole request, and what a refusal reports missing is exactly what may not be handed on |
| `PermissionService.CollectMissing` | src/modules/permission/delegation-validator.service.ts:96-110 | The loop collects the missing set |
| `Grants.MissingExact` | src/modules/permission/delegation-validator.service.ts:96-110 | Reported missing if and only if requested and not held; no entry is reported with an empty action list |
| `Grants.GoldenRule` | src/modules/permission/delegation-validator.service.ts:96-125 | The missing set is empty if and only if every requested pair is held |
| `PermissionService.PermissionService.HasPermission` | src/modules/permission/delegation-validator.service.ts:150-167 | True if and only if the table grants the action, however warm the cache |
| `PermissionService.PermissionService.GetPermissions` | src/modules/permission/permission-cache.service.ts:40-78 | A live entry is served unchanged; otherwise the database view is served and cached for 300 s; coherence of the cache is kept |
| `PermissionService.PermissionService.FetchPermissionsFromDatabase` | src/modules/permission/permission-cache.service.ts:180-207 | In whatever order rows come back, the record built is the user's view: active rows only, actions sorted in place |
| `Grants.ViewOf` | src/modules/permission/permission-cache.service.ts:180-207 | A module is in the view if and only if the user has a row for it that is not revoked, with that row's actions |
| `PermissionService.PermissionService.InvalidateCacheBulk` | src/modules/permission/permission-cache.service.ts:139-160 | Exactly the listed users' entries are dropped |
| `PermissionService.PermissionService.CreateSnapshot` | src/modules/permission/permission.service.ts:217-247 | One audit record is appended, holding what the cache serves: the earlier set while a live entry exists, the current one otherwise |
| `PermissionService.PermissionService.RecordAndInvalidate` | src/modules/permission/permission.service.ts:298-305 | A snapshot for each affected user and nobody else, of the set from before or after the change, taken before their entries are dropped; afterwards no affected user's entry is stale |
| `Snapshots.RevokeExplained` | src/modules/permission/permission.service.ts:150-189 | The cascade snapshots of a revocation, in terms of the table it began with: each holds its user's set with some of the rows due to go out of the way, from before or after one level of the graph |
| `Snapshots.LevelExplained` | src/modules/permission/permission.service.ts:287-302 | The snapshots of one level hold the set from before or after it |
| `PermissionRuns.ProvenanceOverRuns` | src/modules/permission/permission.service.ts:59-325 | In every reachable state of an interleaved system, every (module, action) in a row, cache entry, answer or snapshot goes back along strictly earlier grants, each recipient the next granter, to a grant by an owner |
| `PermissionRuns.NewGrantTraced` | src/modules/permission/delegation-validator.service.ts:47-140 | Even when a manager was validated against a set served at any earlier time, what the manager hands on is traced |
| `PermissionRuns.StepKeepsProvenance` | src/modules/permission/permission.service.ts:59-325 | Each fetch, fill, lost fill, hit, invalidation, snapshot, grant and revocation keeps provenance |
| `PermissionRuns.RequestPassesPerEntry` | src/modules/permission/delegation-validator.service.ts:96-125 | A request that passes as a whole passes entry by entry, so a grant is a run of single upserts |
| `PermissionRuns.FreshOverRuns` | src/modules/permission/permission-cache.service.ts:40-131 | In every reachable state every pending read, cache entry and answer is the database view at its own fetch instant |
| `PermissionRuns.BoundedStaleness` | src/modules/permission/permission-cache.service.ts:22-131 | Every permission set served was the database view at an instant less than 300 s plus its own fetch-to-fill gap earlier, with invalidations lost at will |
| `PermissionEngine.CheckAuthorization` | src/modules/authorization/permission-engine.service.ts:43-183 | Refused as a system error if and only if the user table cannot be read; otherwise authorized if and only if the user exists and the level, permission, scope and rule layers all pass; a refusal names the first that fails, with the rule; owners are refused for a missing permission only; right even from a warm cache |
| `PermissionEngine.LayersMean` | src/modules/authorization/permission-engine.service.ts:193-362 | The level layer lets through owners, those of exactly the level asked for, and anybody where that is worker; the scope layer, owners and those of the branch and department named, if any; the rule layer, owners and requests without a transaction, and nobody else while the rules cannot be read |
| `PermissionEngine.RevokeThenCheck` | src/modules/authorization/permission-engine.service.ts:92-111 | Right after a revocation, nobody who held a listed module through the revoked user is authorized with it |
| `BusinessRules.EvaluateRules` | src/modules/authorization/business-rules.service.ts:30-122 | Scan-with-skip over all levels passes owners, denies without a rule when the database fails, and otherwise denies exactly when an applicable threshold is exceeded, by a rule of the highest priority among those |
| `BusinessRules.CheckBusinessRules` | src/modules/authorization/permission-engine.service.ts:287-362 | Filter-then-scan over one level gives the same answer, rule included, with the same meaning |
| `BusinessRules.QueriesAgree` | src/modules/authorization/permission-engine.service.ts:303-313 | Scanning the sorted rules of one level finds the same rule as scanning all levels, for any rule table and tie order |
| `BusinessRules.FilterSort` | src/modules/authorization/business-rules.service.ts:146-154 | Filtering commutes with the stable priority sort |
| `BusinessRules.DecisionMeaning` | src/modules/authorization/business-rules.service.ts:72-108 | A non-owner passes if and only if no applicable threshold is exceeded; the rule named has the highest priority among those exceeded |
| `BusinessRules.DenialIsMonotone` | src/modules/authorization/business-rules.service.ts:79-96 | A larger amount is denied whenever a smaller one is |
| `CircuitBreaker.FailuresAreTrailing` | src/core/resilience/circuit-breaker.service.ts:132-175 | Over any overlap of calls, `failures` is the number of failures since the last success, reset or registration |
| `CircuitBreaker.SuccessesAreProbes` | src/core/resilience/circuit-breaker.service.ts:132-148 | While half-open, `successes` counts the successes since the circuit went half-open |
| `CircuitBreaker.TransitionsExact` | src/core/resilience/circuit-breaker.service.ts:82-175 | When each state is entered and left, in terms of the history alone |
| `CircuitBreaker.AlwaysConsistent` | src/core/resilience/circuit-breaker.service.ts:49-203 | Closed: failures below threshold; half-open: successes below threshold; open: a failure time is set |
| `CircuitBreaker.OpenUntilStart` | src/core/resilience/circuit-breaker.service.ts:82-96 | Until a call starts, reset or re-registration, the circuit stays open with a failure time no older than the failure that opened it |
| `CircuitBreaker.NoEarlyStart` | src/core/resilience/circuit-breaker.service.ts:70-112 | After a failure leaves it open at t, no call starts before t + timeout unless reset or registered again |
| `CircuitBreaker.OpenRefusesExactly` | src/core/resilience/circuit-breaker.service.ts:84-95 | An open circuit refuses exactly until the timeout has passed, and forever when the failure time is 0, which the source takes for unset |
| `CircuitBreaker.StartsExactly` | src/core/resilience/circuit-breaker.service.ts:82-95 | Over any history: every call starts unless the circuit is open, and while open those from the last recorded failure plus the timeout on, unless that failure was at time 0 |
| `CircuitBreaker.FailureTimeIsLast` | src/core/resilience/circuit-breaker.service.ts:153-175 | The stored failure time is that of the last failure since the last reset or registration |
| `CircuitBreaker.ConfigIsLast` | src/core/resilience/circuit-breaker.service.ts:49-60 | The configuration in force is the one registered last |
| `CircuitBreaker.CircuitBreakerService.Register` | src/core/resilience/circuit-breaker.service.ts:49-60 | Starts a fresh registration in the history of that service and leaves the others |
| `CircuitBreaker.CircuitBreakerService.StartCall` | src/core/resilience/circuit-breaker.service.ts:74-96 | A circuit that is not open admits every call unchanged; an open one admits if and only if the timeout has passed since the last failure in its history, then half-open with no successes counted; only the named service moves |
| `CircuitBreaker.CircuitBreakerService.RecordSuccess` | src/core/resilience/circuit-breaker.service.ts:132-148 | The counters stay explained by the history extended with a success |
| `CircuitBreaker.CircuitBreakerService.RecordFailure` | src/core/resilience/circuit-breaker.service.ts:153-175 | The counters stay explained by the history extended with a failure |
| `CircuitBreaker.CircuitBreakerService.Reset` | src/core/resilience/circuit-breaker.service.ts:194-203 | The counters stay explained by the history extended with a reset; an unknown name changes nothing |
| `CircuitBreaker.CircuitBreakerService.GetStats` | src/core/resilience/circuit-breaker.service.ts:187-189 | The reported failures are the trailing failures of that service's history, the failure time that of the last one; reported successes are the probe successes while half-open |
| `Retry.ExecuteWithRetry` | src/core/resilience/retry.service.ts:44-102 | Calls are sleeps plus one and at most maxAttempts; every earlier attempt failed with an error the list names, by name or code, or with no list; the outcome is the first success, the first error not named or the last attempt's error; the sleeps follow the back-off recurrence |
| `Retry.ScheduleClosedForm` | src/core/resilience/retry.service.ts:89-96 | For multiplier at least 1 the first sleep is the initial delay and the k-th is min(initial * multiplier^(k-1), max) |
| `Retry.ClosedFormIff` | src/core/resilience/retry.service.ts:89-96 | For non-negative configurations every schedule is the closed form if and only if the multiplier is at least 1, or the second delay is not capped, or the cap is 0 |
| `Retry.DelayRecurrence` | src/core/resilience/retry.service.ts:93-96 | Capping before the next multiplication loses nothing once the multiplier is at least 1 |
| `Retry.ShrinkingDelaysDiffer` | src/core/resilience/retry.service.ts:93-96 | A concrete configuration, multiplier 1/2, where recurrence and closed form differ |
| `Retry.TotalBound` | src/core/resilience/retry.service.ts:89-96 | Total sleep is at most the first delay plus the cap for each later sleep |
| `Retry.SleepBound` | src/core/resilience/retry.service.ts:44-102 | Total sleep is at most initialDelay + (maxAttempts - 2) * maxDelay |
| `MultiTierCache.MultiTierCacheService.MGet` | src/core/cache/multi-tier-cache.service.ts:136-170 | On any key list, repeats included, the two index passes return the list, and leave the memory tier, of successive single gets |
| `MultiTierCache.ReadEachClosedForm` | src/core/cache/multi-tier-cache.service.ts:136-170 | What successive gets return and leave behind, key by key |
| `MultiTierCache.MultiTierCacheService.MemoryPass` | src/core/cache/multi-tier-cache.service.ts:142-152 | First pass: memory's answers, expired entries dropped, and exactly the missing positions recorded |
| `MultiTierCache.MultiTierCacheService.RedisPass` | src/core/cache/multi-tier-cache.service.ts:155-167 | Second pass: Redis's answers at exactly the missing positions, remembered in memory |
| `MultiTierCache.MultiTierCacheService.Get` | src/core/cache/multi-tier-cache.service.ts:25-49 | With nothing in between: memory if live and not null, else Redis, which memory then remembers for 60 s; no other key reads differently |
| `MultiTierCache.MultiTierCacheService.Set` | src/core/cache/multi-tier-cache.service.ts:54-66 | The value reads back whatever the two lives are, no other key reads differently; Redis keeps it for the life given, the default one where none or 0 is given, and for good where that life is not positive; memory forgets it within 60 s and not after Redis, unless no life is given and the default one is under 60 s |
| `MultiTierCache.MultiTierCacheService.MSet` | src/core/cache/multi-tier-cache.service.ts:175-189 | Writing one tier for all entries and then the other has the effect of single sets one after another: for each key the last entry naming it decides value and lives in both tiers, and keys not named are untouched |
| `MultiTierCache.SetLifetime` | src/core/cache/multi-tier-cache.service.ts:54-66 | What a set wrote is read until both lives are over and never after; reads in between keep it for at most 60 s past its life in Redis |
| `MultiTierCache.WriteEachSplits` | src/core/cache/multi-tier-cache.service.ts:175-189 | The two tiers of a batch write do not interfere |
| `MultiTierCache.MultiTierCacheService.Del` | src/core/cache/multi-tier-cache.service.ts:71-82 | Neither tier answers for the key any more; no other key reads differently |
| `MultiTierCache.MultiTierCacheService.Incr` | src/core/cache/multi-tier-cache.service.ts:194-198 | One more than what Redis had, or 1 for a missing counter, whatever memory remembered, and the next read sees it; an error changes nothing but the memory entry |
| `MultiTierCache.MultiTierCacheService.CleanupExpired` | src/core/cache/multi-tier-cache.service.ts:275-291 | The sweep removes exactly the expired entries and keeps the others as they are |
| `MultiTierRuns.BoundedStaleness` | src/core/cache/multi-tier-cache.service.ts:25-66 | Under any interleaving of reads split at their awaits, sets, deletes, counts, sweeps and other writers: a value answered was Redis's within 60 s plus the gap between Redis's answer and the fill of the read that remembered it, or was set by this process within 60 s |
| `MultiTierRuns.BackedOverRuns` | src/core/cache/multi-tier-cache.service.ts:25-66 | In every reachable state every remembered value, reply on its way and answer goes back to an answer of Redis or to a set of this process, with its instants |
| `MultiTierRuns.LandedIsHad` | src/core/cache/multi-tier-cache.service.ts:54-66 | Once Redis has taken a set, its value has been Redis's since the set began |
| `MultiTierRuns.ReadIsItsSteps` | src/core/cache/multi-tier-cache.service.ts:25-49 | A get with nothing in between is its memory step, Redis's answer and the fill |
| `MultiTierRuns.WriteIsItsSteps` | src/core/cache/multi-tier-cache.service.ts:54-66 | A set with nothing in between is its memory step and the write to Redis |
| `MultiTierRuns.BoundedStalenessOfBatch` | src/core/cache/multi-tier-cache.service.ts:136-170 | A batch takes what memory has at one instant, so backed, and Redis's replies for the rest |
| `MultiTierRuns.OwnWritesAreSeen` | src/core/cache/multi-tier-cache.service.ts:25-66 | A set is read back until its memory entry expires, whatever else goes on, if and only if no read of the key was under way that could bring another value |
| `MultiTierRuns.StepAlike` | src/core/cache/multi-tier-cache.service.ts:239-291 | States that differ in expired entries only answer alike and stay alike |
| `MultiTierRuns.SweepsAreInvisible` | src/core/cache/multi-tier-cache.service.ts:275-291 | Removing all sweeps from any run changes no answer |
| `SoftDelete.SoftDeleteRefinesDelete` | src/core/database/middleware/soft-delete.middleware.ts:15-95 | Over any run of find, count, create, update, updateMany, delete and deleteMany that leaves deletedAt alone and is not refused for the sake of a deleted row only, answers and undeleted rows are those of a table that really deletes |
| `SoftDelete.StepRefinesIff` | src/core/database/middleware/soft-delete.middleware.ts:24-91 | A single request that leaves deletedAt alone agrees with real deletion if and only if no deleted row alone stands in its way, by its key or by the value of another unique column |
| `SoftDelete.WritesRefineIff` | src/core/database/middleware/soft-delete.middleware.ts:73-91 | The same for updates: they are refused exactly when a row, deleted ones included, holds the unique value they write |
| `SoftDelete.Params.SoftDeleteMiddleware` | src/core/database/middleware/soft-delete.middleware.ts:15-95 | A model not listed is left alone. Of a listed one deletes become updates that write the time of deletion; finds, counts and updates are kept to undeleted rows unless the filter has a deletedAt condition of its own; creates and aggregates pass |
| `SoftDelete.DeletesMean` | src/core/database/middleware/soft-delete.middleware.ts:15-38 | A delete on a model not listed removes exactly the rows asked for; on a listed one it removes none and marks exactly those of them not yet deleted with the time of the request |
| `SoftDelete.DeletedRowsAreKept` | src/core/database/middleware/soft-delete.middleware.ts:24-38 | No row is ever removed and a deleted row never changes |
| `SoftDelete.CreateAgreesIff` | src/core/database/middleware/soft-delete.middleware.ts:15-95 | A create agrees with real deletion if and only if no deleted row holds its key or unique value, or a live one does too |
| `SoftDelete.AggregateAgreesIff` | src/core/database/middleware/soft-delete.middleware.ts:40-71 | An aggregate, which is not rewritten, agrees if and only if no deleted row matches its filter |
| `ScopeFilter.Params.ScopeFilterMiddleware` | src/core/database/middleware/scope-filter.middleware.ts:19-96 | The rows selected are those selected before that lie in the user's branch and department, an empty id counting for none; without a user, for owners, writes and models not listed the query is left as it is; a query that ran still runs if and only if the scope is on columns the table has and it is not a findUnique |
| `ScopeFilter.Params.SoftDeleteFilter` | src/core/database/middleware/soft-delete.middleware.ts:41-71 | On any where object, AND included, deleted rows are hidden unless the outermost object has its own deletedAt condition |
| `ScopeFilter.Params.ReadMiddlewares` | src/core/database/prisma.service.ts:48-55 | In the installed order, a caller's own deletedAt condition gets through if and only if no scope was applied; which queries still run |
| `Lockout.GuessBound` | src/modules/auth/auth.service.ts:380-673 | With no success, a span T holds at most 5 * (1 + floor(T / 30 min)) failed credential comparisons, by password and PIN together, counting every login whose comparison may fall into the span at either end |
| `Lockout.BudgetStep` | src/modules/auth/auth.service.ts:457-652 | Each unsuccessful login spends from a budget that only a full lockout period refills |
| `Lockout.CountWithinBudget` | src/modules/auth/auth.service.ts:457-652 | Failed comparisons over any run, the last one included when only its record falls outside, stay within the budget at its start |
| `Lockout.SoundOverRuns` | src/modules/auth/auth.service.ts:608-812 | Over any logins: active means fewer than 5 attempts, locked means an unlock time at most 30 min away |
| `Lockout.LockedIffFiveInAStreak` | src/modules/auth/auth.service.ts:608-673 | From a clean account, the counter is the current streak of failures and the account is locked if and only if it has reached 5 |
| `Lockout.InactiveStaysIff` | src/modules/auth/auth.service.ts:397-443 | Logins leave an inactive account inactive if and only if the password logins that find no password do not bring its counter to five |
| `Lockout.InactiveMayReturn` | src/modules/auth/auth.service.ts:397-508 | Five such logins and a PIN login after the lock do make an inactive account active: a concrete run |
| `Lockout.AuthService.LoginWithPassword` | src/modules/auth/auth.service.ts:380-443 | Accepted if and only if there is a password, the one given is right and the account is open: active, or locked with the lock run out; a wrong one counts and the fifth locks for 30 minutes, as does a login where no password is set; a refusal changes nothing, a success clears the counter |
| `Lockout.AuthService.LoginWithPin` | src/modules/auth/auth.service.ts:457-508 | The same for a PIN, for workers who have one only; without a PIN nothing is counted |
| `Lockout.AuthService.CheckStatus` | src/modules/auth/auth.service.ts:762-812 | Whoever passes is active with attempts left; whoever does not is inactive, or locked for at most 30 more minutes, and is left so |
| `Lockout.AuthService.RecordFailure` | src/modules/auth/auth.service.ts:608-652 | An active account is locked if and only if this was its last attempt, and is then refused for the full 30 minutes; no failure shortens a lock |
| `Sanitization.SanitizeIsEscapedText` | src/common/middleware/sanitization.middleware.ts:69-91 | The whole chain is one character-wise escape of the tag-free, control-free text |
| `Sanitization.SanitizeCharacter` | src/common/middleware/sanitization.middleware.ts:69-91 | What becomes of each character on its own: six are written as entities, control characters other than tab, line feed and carriage return vanish, the rest stand |
| `Sanitization.SanitizeIsCharacterwise` | src/common/middleware/sanitization.middleware.ts:69-91 | Without tags, a string is sanitized character by character |
| `Sanitization.EscapeIsOnePass` | src/common/middleware/sanitization.middleware.ts:76-82 | The six sequential replacements equal one substitution per character |
| `Sanitization.RemoveControlsEscape` | src/common/middleware/sanitization.middleware.ts:84-88 | Removing control characters after escaping is removing them before |
| `Sanitization.StripLeavesNoTag` | src/common/middleware/sanitization.middleware.ts:73-73 | After stripping no < has a > anywhere after it |
| `Sanitization.StripKeepsTagless` | src/common/middleware/sanitization.middleware.ts:73-73 | Text without such a pair is not touched |
| `Sanitization.StripRemovesFirstTag` | src/common/middleware/sanitization.middleware.ts:73-73 | What is removed is the text from the first < that has a > after it up to the next >, and so on |
| `Sanitization.StripIdempotent` | src/common/middleware/sanitization.middleware.ts:73-73 | Stripping twice is stripping once |
| `Sanitization.SanitizeInvertible` | src/common/middleware/sanitization.middleware.ts:69-91 | Decoding the output recovers exactly the text of the input |
| `Sanitization.DecodeInvertsEscape` | src/common/middleware/sanitization.middleware.ts:76-82 | Decoding inverts escaping for every string |
| `Sanitization.SanitizeIsSafe` | src/common/middleware/sanitization.middleware.ts:69-91 | The output has none of < > " ' / and no control character, and every & begins one of the six entities |
| `Sanitization.SanitizeTwiceIff` | src/common/middleware/sanitization.middleware.ts:69-91 | A second pass changes nothing if and only if the text held no special character: the middleware is not idempotent |
| `Sessions.TokenAcceptedOnce` | src/modules/auth/token.service.ts:307-381 | In any run, a refresh token accepted once is never accepted again |
| `Sessions.SessionsBoundedByLogins` | src/modules/auth/session.service.ts:230-267 | Unrevoked sessions of a user never outnumber that user's logins |
| `Sessions.ConsistentOverRuns` | src/modules/auth/session.service.ts:57-267 | In every reachable state each login's rotation chain has at most one unrevoked session, tokens are distinct, and accepted tokens are spent |
| `Sessions.StepConsistent` | src/modules/auth/session.service.ts:57-267 | Login, refresh and any revocation keep that |
| `Sessions.SessionService.FindByRefreshToken` | src/modules/auth/session.service.ts:90-118 | A session is found if and only if an unrevoked, unexpired one carries the token |
| `Sessions.SessionService.RefreshAccessToken` | src/modules/auth/token.service.ts:307-381 | Refused exactly when no live session carries the token or its user is gone, with nothing changed; otherwise that session is revoked and the new one, of the same user, lives seven days |
| `Sessions.SessionService.CreateLoginSession` | src/modules/auth/session.service.ts:57-80 | A new session, living seven days, starts a new chain and keeps the invariant |
| `Sessions.SessionService.RevokeSession` | src/modules/auth/session.service.ts:127-138 | Exactly that session is revoked, if there is one |
| `Sessions.SessionService.RevokeAllUserSessions` | src/modules/auth/session.service.ts:148-189 | Exactly the user's unrevoked sessions but the excepted one are revoked |
| `Sessions.TokenLifetime` | src/modules/auth/session.service.ts:246-267 | In any run, a token is accepted for the very session it was issued with, and only within seven days of that |
| `Sessions.TokenServesItsTime` | src/modules/auth/session.service.ts:90-118 | And for all of those seven days it is accepted, unless its session was ended or rotated |
| `TokenRevocation.RevocationIsPermanent` | src/modules/auth/token.service.ts:267-302 | Once a revocation completes, that token is rejected at every later instant, whatever is revoked after it |
| `TokenRevocation.PermanentIffExpires` | src/modules/auth/token.service.ts:277-285 | A token is rejected for good if and only if it names its expiry: one without is blacklisted for the default lifetime only |
| `TokenRevocation.RevokeHolds` | src/modules/auth/token.service.ts:278-285 | The blacklist entry, its seconds rounded down, outlives the instant from which section 4.1.4 of RFC 7519 forbids acceptance |
| `TokenRevocation.HeldOverRevocations` | src/modules/auth/token.service.ts:267-302 | No later revocation shortens an earlier one |
| `TokenRevocation.TokenService.RevokeToken` | src/modules/auth/token.service.ts:267-302 | The entry written, for the whole seconds left or the default lifetime; the blacklist then holds the token, and no other entry moves; an expired token writes nothing |
| `TokenRevocation.TokenService.ValidateAccessToken` | src/modules/auth/token.service.ts:128-177 | Valid if and only if signed, not expired, not blacklisted and of the current fingerprint; a refusal names the first of these that fails; a held token is never valid |
| `PasswordHistory.FiveInARowDiffer` | src/modules/user/user.service.ts:577-620 | Over any run of successful changes, any five consecutive passwords are pairwise distinct |
| `PasswordHistory.SixthMayRepeat` | src/modules/user/user.service.ts:577-620 | Five is the most: the sixth may be the first again |
| `PasswordHistory.HistoryIsNewestThree` | src/modules/user/user.service.ts:395-402 | The stored history is exactly the newest min(n, 3) former passwords, newest first |
| `PasswordHistory.UserService.ChangePassword` | src/modules/user/user.service.ts:353-441 | Each refusal if and only if its check is the first to fail: no password set, wrong password, weak, same as the current, used before; the account after; a change ends every live session of the user but the current one and no other session; a refused change writes nothing |
| `PasswordHistory.StrongMeans` | src/modules/user/user.service.ts:479-535 | Strong passwords are those of at least eight characters with an upper-case letter, a lower-case one, a digit and one of the special characters |
| `Fingerprint.PreHashCanonical` | src/modules/permission/permission-cache.service.ts:216-224 | For non-empty names free of colon, comma and bar, two records hash the same string if and only if they grant the same actions, equally often, on the same modules |
| `Fingerprint.PreHashTellsApartIff` | src/modules/permission/permission-cache.service.ts:216-224 | For any set of characters, all records with non-empty names and actions over it are told apart if and only if colon, comma and bar are outside it |
| `Fingerprint.PreHashCollides` | src/modules/permission/permission-cache.service.ts:216-224 | Each of the three separators makes for a collision even as the only character used |
| `Fingerprint.PreHashJsonCanonical` | src/modules/auth/token.service.ts:183-195 | TokenService's JSON is canonical in the same sense for any names |
| `Fingerprint.FingerprintsAgree` | src/modules/auth/token.service.ts:183-211 | Both services tell the same well-named records apart |
| `PermissionAlgebra.MergeIsLeastUpperBound` | src/shared/utils/permission.utils.ts:91-107 | Merge is the least upper bound under subset |
| `PermissionAlgebra.MergeExact` | src/shared/utils/permission.utils.ts:91-107 | Module by module: the list of one side as it stands, or both joined without repetition |
| `PermissionAlgebra.DifferenceExact` | src/shared/utils/permission.utils.ts:115-133 | The difference holds exactly the actions of the first set that the second lacks, and no module without one |
| `PermissionAlgebra.DifferenceEmptyIff` | src/shared/utils/permission.utils.ts:115-133 | For non-empty action lists the difference is empty if and only if subset holds; in general, if and only if it holds but for modules without actions |
| `PermissionAlgebra.MergeDifferenceCoversIff` | src/shared/utils/permission.utils.ts:115-133 | Merging difference(a, b) with b covers a if and only if every action-less module of a is in b |
| `PermissionAlgebra.IsPermissionSubset` | src/shared/utils/permission.utils.ts:66-83 | The nested loops decide subset |
| `PermissionAlgebra.MergePermissions` | src/shared/utils/permission.utils.ts:91-107 | The loop computes the merge whatever the entry order |
| `PermissionAlgebra.GetPermissionDifference` | src/shared/utils/permission.utils.ts:115-133 | The loop computes the difference whatever the entry order |
| `PermissionAlgebra.PermissionMapToArray` | src/shared/utils/permission.utils.ts:140-150 | Reading the strings back gives the record if and only if names and actions are colon-free and the lists non-empty and without repetitions |
| `PermissionAlgebra.ArrayToPermissionMap` | src/shared/utils/permission.utils.ts:157-171 | What is read back is always such a record, whatever the strings |
| `PermissionAlgebra.SplitMeans` | src/shared/utils/permission.utils.ts:157-171 | A string without a colon is a module without an action; otherwise the name ends at the first colon and the action at the second |
| `PermissionAlgebra.HasAllPermissions` | src/common/utils/permission.util.ts:65-83 | The nested loops decide that everything required is held |
| `PermissionAlgebra.GetMissingPermissions` | src/common/utils/permission.util.ts:88-113 | The nested loops compute the missing set, the one whose exactness is proved for delegation |
| `PermissionAlgebra.NothingMissingIff` | src/common/utils/permission.util.ts:65-113 | Nothing is missing if and only if everything required is held, but for modules required with no actions |
| `RateLimit.PassBound` | src/modules/auth/guards/rate-limit.guard.ts:23-85 | One request at a time, a span lets through at most 5 plus 5 for every window begun in it: at most 10 in any 900 s |
| `RateLimit.PassesWithinBudget` | src/modules/auth/guards/rate-limit.guard.ts:35-73 | Passes over any run stay within the budget the counter leaves |
| `RateLimit.RateLimitGuard.CanActivate` | src/modules/auth/guards/rate-limit.guard.ts:35-73 | Refused if and only if a live counter shows 5 attempts, and then nothing changes; what passes adds one to a counter still live and leaves its end, or begins one of 900 s |
| `WriteBehind.PendingOrStored` | src/core/cache/strategies/write-behind.strategy.ts:68-122 | However sets and timers interleave, a pending timer holds the value last set, and once it has fired the database holds it unless its persister failed |
| `WriteBehind.QuiescentDatabase` | src/core/cache/strategies/write-behind.strategy.ts:94-122 | At quiescence the database holds the last set value per key whose last persister did not fail |
| `WriteBehind.WriteBehindStrategy.Set` | src/core/cache/strategies/write-behind.strategy.ts:68-122 | Cached at once, other keys as before; however often a key is set, one write is pending, of the value set last; every other key's pending write and the database are untouched, and without a persister no write is added |
| `WriteBehind.WriteBehindStrategy.TimerFired` | src/core/cache/strategies/write-behind.strategy.ts:106-119 | The value last set, not an earlier one, is stored, or lost if and only if the persister fails; no other key moves |
| `OrganizationUnits.ConsistentOverRuns` | src/modules/organization/branch.service.ts:24-174 | In every reachable state branch managers and department managers point back, codes are unique per organization, a department's branch is in its organization, creators are exactly one level up, managers have a branch or a department, and a worker's branch and department, where set, are those of the manager who created them |
| `OrganizationUnits.OneBranchPerManager` | src/modules/organization/branch.service.ts:113-174 | Nobody manages two branches |
| `OrganizationUnits.CreatorsLeadToOwner` | src/modules/user/user.service.ts:196-228 | From any user, following creators reaches an owner within two steps |
| `OrganizationUnits.StepConsistent` | src/modules/organization/branch.service.ts:24-174 | Every operation keeps all of this |
| `OrganizationUnits.BranchManagersStayIff` | src/modules/organization/branch.service.ts:113-174 | Organizations are not compared: branch managers stay within the branch's organization through a step if and only if it does not assign one from another |
| `OrganizationUnits.DepartmentManagersStayIff` | src/modules/organization/department.service.ts:145-192 | The same for departments |
| `OrganizationUnits.OrganizationServices.ValidateUserCreation` | src/modules/user/user.service.ts:196-228 | Creation may go on exactly for an owner creating a manager and a manager creating a worker |
| `OrganizationUnits.OrganizationServices.CreateManagerRow` | src/modules/user/user.service.ts:21-98 | Done if and only if the creator is an owner and a branch or department is given; the new manager manages nothing yet; consistency is kept |
| `OrganizationUnits.OrganizationServices.CreateWorkerRow` | src/modules/user/user.service.ts:104-190 | Done if and only if the creator is a manager; the worker has that manager's scope, never an empty one, and the manager was created by an owner; consistency is kept |
| `OrganizationUnits.OrganizationServices.CreateBranchRow` | src/modules/organization/branch.service.ts:24-56 | Done if and only if no branch of the organization has the code; otherwise nothing changes; consistency is kept |
| `OrganizationUnits.OrganizationServices.UpdateBranchRow` | src/modules/organization/branch.service.ts:65-103 | Done if and only if the branch exists and no other of its organization has the code asked for; organization and manager stay; consistency is kept |
| `OrganizationUnits.OrganizationServices.AssignManagerToBranch` | src/modules/organization/branch.service.ts:113-174 | Done if and only if both exist, the user is a manager and in no other branch; branch and user change together or not at all, the branch becomes the only one that user manages, and assigning again changes nothing; consistency is kept |
| `OrganizationUnits.OrganizationServices.CreateDepartmentRow` | src/modules/organization/department.service.ts:24-71 | Done if and only if the code is free and the branch, if given, is one of the organization; consistency is kept |
| `OrganizationUnits.OrganizationServices.UpdateDepartmentRow` | src/modules/organization/department.service.ts:80-135 | As for branches; the branch may be changed to one of the organization, cleared or left; consistency is kept |
| `OrganizationUnits.OrganizationServices.AssignManagerToDepartment` | src/modules/organization/department.service.ts:145-192 | Done if and only if both exist, the user is a manager and in no other department; department and user change together or not at all, the department becomes the only one that user manages, and assigning again changes nothing; consistency is kept |

## Left out

- Lockout.GuessBound: password logins naming both an organization and an email are not modelled, because the account checked and the account charged then differ; nor are edits by administrators.
- PasswordHistory.UserService.ChangePassword: accounts without a staff profile, whose change fails inside the transaction, are not modelled.
- Sessions.TokenAcceptedOnce: refreshes run one at a time; two concurrent refreshes with one token are not modelled.
- TokenRevocation.RevocationIsPermanent: Redis answers; the blacklist lookup that reads as "not revoked" on a Redis error is not modelled.
- RateLimit.PassBound: requests run one at a time and Redis answers; the guard lets requests through when Redis fails or no identifier is found.
- WriteBehind.QuiescentDatabase: `flush`, and persisters still running when their key is set again, are not modelled.
- SHA-256, bcrypt and JWT signing: comparison of hashes is comparison of what was hashed; a fingerprint is its pre-image.
- Row ids other than the unique key of a permission row, organization ids of permission rows, messages and logging.
- Redis and database failures in `PermissionService`; lost fills and lost invalidations are in `PermissionRuns`.
- Soft delete: `findFirstOrThrow`, `upsert`, `groupBy` and absent `args`; the tenant, timestamp and audit middlewares.
- `requestTimeout` of the circuit breaker: a call that times out is a failed call.
- `delPattern` globs, `exists`, `ttl`, `decr`, `warmCache` and `reset` of the two-tier cache; forgetting any key set covers what the first and last do to memory.
- A failing Redis read of the two-tier cache, which reads as a miss.
- `sanitizeObject`, which applies the string pass to the leaves of request objects; UTF-16 surrogates.
- Merging more than two permission sets, any-of checks, the conversions between permission lists and sets, and listing what a user may grant.
- The order in which JavaScript enumerates integer-like keys in JSON: a parameter of `PreHashJsonCanonical`.
- Creating, updating and approving business rules; amounts and thresholds are reals, without NaN.
- Email uniqueness, temporary credentials and staff profiles in user creation; department names; `updateUser`; names of organization units beyond branches.
- Google sign-in, queues, health checks, GraphQL and gRPC wiring, and configuration loading.
