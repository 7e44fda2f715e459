# Authorization platform: verified model

A Dafny model of the state machines and transformations behind a multi-tenant authorization
platform, with proofs over every input, every run or every reachable state. `dafny verify
dfyconfig.toml` checks all of it.

| files | what they hold |
|---|---|
| `DottedPaths`, `OrgPath`, `OrgForest`, `OrgOutcomes`, `OrgUnits` | the org-unit tree kept twice, as `parentId` links and as an index of dotted paths; create and move, when they succeed and how they fail |
| `InsertionMap`, `TtlLruCache`, `CacheKeys`, `PipClient` | JavaScript's insertion-ordered `Map`, the TTL and LRU cache over it, its keys, and the read-through principal client as interleaved steps |
| `PipReads`, `PipOrder`, `PipInvalidation`, `PipAnswers` | what that client's callers see: how long a value serves, how old it can be, whether values go back, what an invalidation is good for, and that every call is answered |
| `JsText`, `HashChain`, `AuditLog`, `AuditPaging` | UTF-16 text and its JSON and UTF-8 forms, the audit hash chain and its replay, interleaved serializable appends with bounded retry, keyset paging |
| `PolicyCompiler`, `ScopeChain`, `PolicyPublisher`, `PolicyAuthoring` | authored conditions and rules compiled to the policy engine's form, the tenant guardrail, ancestor stubs and the policy directory |
| `RateLimiter` | the gateway's fixed-window limiter over timed traces |
| `OptimisticLock`, `EffectiveRoles` | transactions behind a version compare-and-set, and the roles a principal has at a scope |

## How things are modelled

* A database table is a map (or, for the log, a sequence) of the rows one tenant sees. Org-unit create
  and move run one transaction at a time; `OptimisticLock` interleaves transactions at read-committed
  isolation, with row locks held from compare-and-set to commit; log appends are serializable, which
  here means that an append commits only if no other append has committed since its snapshot.
* Classes carry the fields their originals update in place, and each method is proved equal to a
  function on values; the lemmas are about those functions.
* SHA-256 is any function from bytes to bytes. Nothing is assumed of it: where collision resistance
  matters, a theorem ends in "or two of these logs' own preimages collide, or one hashes to the genesis
  anchor".
* The CEL evaluator, the owner of the principal data, clocks, the disk's failures and the order in which
  the database returns rows are parameters. The engine decides as the repository's documents say: deny
  overrides within one document, the most specific scope with a verdict decides, then the base policy,
  and no verdict is a denial. `*` stands for every action and every role.
* In `PipClient` a call whose promise has settled continues before the clock moves, as a microtask does,
  the call that started a fetch continues before those that joined it, and a response counts only within
  the configured timeout.
* In `OptimisticLock` each loaded aggregate is changed once, and not loaded again, before it is saved, as
  in every use case.

## What turned out false of the code, or of its documentation

Each is shown by a concrete case, or by an if-and-only-if that contains one, and has a lemma that says
exactly when the code does meet it.

* `OrgPath.child` documents a single segment but accepts `a.b`; the tree invariant survives a create
  exactly when the segment is dot-free, which the request pattern enforces
  (`CreateKeepsForestIffSingleSegment`, `DottedCreateBreaksForest`).
* The clean-up after a forced fetch deletes another call's pending entry, so two fetches for one key can
  be outstanding (`ForcedCleanUpOrphans`); the pending map is right throughout a run exactly when no
  forced fetch cleans up over a pending one (`SingleFlightIffNoOrphaning`).
* A forced call makes older values come back: after it got the owner's new value, calls begun later get
  the old one for a whole TTL (`ForcedReadsGoBack`). Where calls are forced for given keys only, a call for
  a key never gets a value read before one that was already returned when it began, exactly when the key is
  not one of them or nothing is cached (`CallOrderIff`); `TimeOrderIff` is the like for calls answered at
  different times.
* After an invalidation the next check is documented to see the change (`DESIGN.md:146-158`); a fetch that
  read before it can still hand its value on, for a whole TTL (`InvalidatedComesBack`). Calls begun after an
  invalidation get values read after it exactly when no fetch carries an earlier one over
  (`InvalidationHoldsIff`).
* The TTL is documented as the ceiling on staleness (`DESIGN.md:534`); the ceiling is the timeout and the
  TTL together, less the last millisecond (`MaxAgeIff`, `OldestServed`).
* Principals can share a cache key (`CacheKeyCollides`): those of two tenants exactly when one tenant id,
  closed by `::`, begins the other, and those of two scopes of a tenant exactly when one scope, opened by
  `::`, ends the other (`TenantsShareKeyIff`, `ScopesShareKeyIff`, `UnambiguousIffNoClash`).
* A cache of capacity zero holds one entry (`ZeroCapacityHoldsOne`); any other keeps its bound
  (`RunBounded`).
* Deletion is documented as detectable by replay. Of the lists made of an accepted log's records replay
  accepts its beginnings too, and nothing else exactly when the chain repeats no hash
  (`TruncationReplays`, `OnlyTruncationsReplayIff`). With an anchored head, `seq` and `recordedAt` are all
  that can differ, collisions aside (`TamperingIsEvident`).
* `seq` is documented as gap-free; a database sequence is not rolled back, so the log can begin at 2
  (`RetryLeavesGap`). It is gap-free exactly when no number lost or held lies below the last row's
  (`GapFreeIffNoneMissingBelow`).
* A condition with more than one of `all`, `any` and `expr` set loses all but the first
  (`PreservedIffAtMostOneField`).
* Stubs are documented for every missing ancestor; they are written over existing ancestors too
  (`PublishEmptiesAncestors`, `EarlierPolicySurvivesIff`).
* The leaf file is written before its ancestors' (`MidPublishClosedIff`).
* Two resource kinds can share a file exactly when one is the other, a dot and labels that leave room in a
  scope for one more (`KindsShareFileIff`), and publications of one can then leave a document of the other
  without its ancestor (`CompletePublishKeepsClosedIff`); kinds without a dot never do
  (`DotFreeKindsKeepClosed`).
* A scope called `base` has the file name of the scope-less base policy (`SameKindSameFileIff`).
* Scopes are documented as org-unit paths, but an org-unit path with a hyphen is neither a policy scope
  nor a principal scope (`OrgPathIsScopeIffNoHyphen`).

## Model

| member | source | states |
|---|---|---|
| DottedPaths.StartsWithIffSegmentPrefix | apps/authz-admin/src/modules/org-unit/domain/value-objects/org-path.vo.ts:71-75 | the string test `startsWith(p + '.')` is the proper-prefix order on segments, for all strings |
| DottedPaths.SplitConcat | apps/authz-admin/src/modules/org-unit/domain/value-objects/org-path.vo.ts:50-57 | splitting a path extended by a dot and a string gives the path's segments and then the string's |
| OrgPaths.FromString | apps/authz-admin/src/modules/org-unit/domain/value-objects/org-path.vo.ts:29-47 | accepts exactly the strings of one to eight lower-kebab segments, and keeps the string |
| OrgPaths.PathIffPattern | apps/authz-admin/src/modules/org-unit/domain/value-objects/org-path.vo.ts:13-47 | a path is one to eight segments that a reader of the pattern `[a-z0-9]+(?:-[a-z0-9]+)*` accepts |
| OrgPaths.IsAncestorOfIsSegmentPrefix | apps/authz-admin/src/modules/org-unit/domain/value-objects/org-path.vo.ts:71-75 | `isAncestorOf` is the prefix order on segments |
| OrgPaths.LikeSubtreeIsPrefix | apps/authz-admin/src/modules/org-unit/infrastructure/typeorm-org-unit.repository.ts:105-111 | SQL `LIKE 'path.%'`, wildcards and escapes included, is exactly the prefix test on stored paths |
| OrgForest.PrefixIsAncestor | apps/authz-admin/src/modules/org-unit/domain/org-unit.entity.ts:85-102 | every prefix of a stored path is the path of an ancestor-or-self that `parentId` reaches |
| OrgForest.PrefixIffBelow | apps/authz-admin/src/modules/org-unit/infrastructure/typeorm-org-unit.repository.ts:105-113 | in a forest the path index and the parent links give the same descendants |
| OrgForest.FindDescendantsExact | apps/authz-admin/src/modules/org-unit/infrastructure/typeorm-org-unit.repository.ts:105-113 | the subtree query returns the nodes reachable by following `parentId`, no more and no fewer |
| OrgForest.ForestAcyclic | apps/authz-admin/src/modules/org-unit/application/use-cases/move-org-unit.use-case.ts:55-61 | no node of a forest is its own proper ancestor |
| OrgForest.ReachesRoot | apps/authz-admin/src/modules/org-unit/domain/value-objects/org-path.vo.ts:17-37 | following `parentId` from any node reaches a root in fewer than eight steps |
| OrgForest.CreateKeepsForestIffSingleSegment | apps/authz-admin/src/modules/org-unit/application/use-cases/create-org-unit.use-case.ts:29-64 | a successful create keeps the tree and its index in step if and only if the segment is dot-free |
| OrgForest.DottedCreateBreaksForest | apps/authz-admin/src/modules/org-unit/application/use-cases/create-org-unit.use-case.ts:29-64 | any two valid segments with a dot between them are accepted as one for a new root, and break the invariant |
| OrgForest.CycleGuardExact | apps/authz-admin/src/modules/org-unit/application/use-cases/move-org-unit.use-case.ts:55-61 | the path guard rejects exactly the moves that would make a cycle in the tree |
| OrgForest.MovedNeverCollides | apps/authz-admin/src/modules/org-unit/application/use-cases/move-org-unit.use-case.ts:70-79 | checking the moved node's new path alone keeps every rebased path apart from every other, old or new |
| OrgForest.MoveKeepsForest | apps/authz-admin/src/modules/org-unit/application/use-cases/move-org-unit.use-case.ts:38-88 | after a successful move every path is its parent's path and its own leaf, and paths are unique |
| OrgForest.EveryPartialSaveIsUnique | apps/authz-admin/src/modules/org-unit/infrastructure/typeorm-org-unit.repository.ts:50-60 | whichever of the subtree's rows have been written so far, no two rows share a path |
| OrgForest.MoveFrame | apps/authz-admin/src/modules/org-unit/application/use-cases/move-org-unit.use-case.ts:64-81 | a move changes the node's parent link and the subtree's paths and versions, and nothing else |
| OrgForest.MoveBackRestores | apps/authz-admin/src/modules/org-unit/application/use-cases/move-org-unit.use-case.ts:38-88 | moving a node and moving it back always succeeds and restores every path and parent link |
| OrgForest.MoveSucceedsIff | apps/authz-admin/src/modules/org-unit/application/use-cases/move-org-unit.use-case.ts:38-88 | a move of a forest succeeds if and only if the node and the new parent are present, the expected version is absent or the stored one, no cycle arises, no other child of the new parent has the same leaf, and the subtree fits in eight levels |
| OrgOutcomes.StaleMoveFailsIff | apps/authz-admin/src/modules/org-unit/application/use-cases/move-org-unit.use-case.ts:44-46 | in any table, a move gives `version_mismatch` if and only if the node is present and the expected version is not the stored one |
| OrgOutcomes.MoveRefusedIff | apps/authz-admin/src/modules/org-unit/application/use-cases/move-org-unit.use-case.ts:38-62 | not-found and cycle errors come in exactly these cases: which id is missing, and whether the new parent is the node or below it |
| OrgOutcomes.MovePathFailsIff | apps/authz-admin/src/modules/org-unit/application/use-cases/move-org-unit.use-case.ts:64-81 | a taken path is that of a sibling with the same leaf, a path too deep is at the node or only below it, and neither error comes otherwise |
| OrgOutcomes.CreateFrame | apps/authz-admin/src/modules/org-unit/application/use-cases/create-org-unit.use-case.ts:29-64 | a successful create adds one row: that parent, the parent's path, a dot and the segment, version 1 |
| OrgOutcomes.CreateFailsIff | apps/authz-admin/src/modules/org-unit/application/use-cases/create-org-unit.use-case.ts:29-64 | when a create succeeds, and each of its errors, in exactly the cases of a missing parent, a blank, too deep or ill-formed path, or a taken one |
| OrgOutcomes.TakenIffSibling | apps/authz-admin/src/modules/org-unit/application/use-cases/create-org-unit.use-case.ts:55-58 | for a single segment the path is taken if and only if the parent has a child of that name |
| OrgForest.EveryReachableTableIsForest | apps/authz-admin/src/modules/org-unit/application/use-cases/move-org-unit.use-case.ts:38-88 | over every run of creates and moves, failing ones included: index and tree agree, no cycle, depth at most eight |
| OrgUnits.OrgUnit.MoveTo | apps/authz-admin/src/modules/org-unit/domain/org-unit.entity.ts:159-176 | sets parent, path and version, or fails and leaves the node as it was |
| OrgUnits.OrgUnit.RebasePath | apps/authz-admin/src/modules/org-unit/domain/org-unit.entity.ts:182-197 | replaces the ancestor prefix and bumps the version, or fails and leaves the node as it was |
| OrgUnits.OrgUnitRepository.FindById | apps/authz-admin/src/modules/org-unit/infrastructure/typeorm-org-unit.repository.ts:62-67 | a fresh copy of the row with that id, if there is one |
| OrgUnits.OrgUnitRepository.FindByPath | apps/authz-admin/src/modules/org-unit/infrastructure/typeorm-org-unit.repository.ts:69-74 | a fresh copy of a row with that path, if there is one |
| OrgUnits.OrgUnitRepository.FindDescendants | apps/authz-admin/src/modules/org-unit/infrastructure/typeorm-org-unit.repository.ts:105-113 | fresh copies of exactly the rows under the path, each once |
| OrgUnits.OrgUnitRepository.GuardOptimisticLock | apps/authz-admin/src/shared/infrastructure/database/optimistic-persist.ts:31-63 | bumps the version if the row is one behind, lets a first version or an unknown id through, and reports a conflict otherwise |
| OrgUnits.OrgUnitRepository.SaveMany | apps/authz-admin/src/modules/org-unit/infrastructure/typeorm-org-unit.repository.ts:50-60 | succeeds exactly when every unit passes its guard, and then stores exactly those units |
| OrgUnits.OrgUnitRepository.Save | apps/authz-admin/src/modules/org-unit/infrastructure/typeorm-org-unit.repository.ts:43-48 | stores the unit behind its guard |
| OrgUnits.MoveOrgUnit | apps/authz-admin/src/modules/org-unit/application/use-cases/move-org-unit.use-case.ts:38-88 | the imperative use case does to the table what `Move` does, answers the moved row or its error, and refuses a stale version without a change |
| OrgUnits.CreateOrgUnit | apps/authz-admin/src/modules/org-unit/application/use-cases/create-org-unit.use-case.ts:29-64 | the imperative use case computes the create on tables, and a failing call changes nothing |
| TtlLruCaches.TtlLruCache.Lookup | packages/authz/src/pip/ttl-lru-cache.ts:20-33 | the in-place read is the cache read on values |
| TtlLruCaches.TtlLruCache.Put | packages/authz/src/pip/ttl-lru-cache.ts:36-46 | the in-place write is the cache write on values |
| TtlLruCaches.TtlLruCache.Remove | packages/authz/src/pip/ttl-lru-cache.ts:49-51 | the in-place delete is the map's delete |
| TtlLruCaches.RunBounded | packages/authz/src/pip/ttl-lru-cache.ts:36-46 | over every run from empty, keys are distinct and the size never exceeds a capacity of at least one |
| TtlLruCaches.ZeroCapacityHoldsOne | packages/authz/src/pip/ttl-lru-cache.ts:36-46 | with capacity zero the bound fails: one entry stays |
| TtlLruCaches.Inclusion | packages/authz/src/pip/ttl-lru-cache.ts:20-51 | with capacities 1 <= m <= n on the same operations and clock, the small cache is the large one restricted to fewer keys, and its hits are the large one's |
| TtlLruCaches.HitIsLastSetWithinTtl | packages/authz/src/pip/ttl-lru-cache.ts:20-46 | a hit returns the value last set and not removed since, strictly within its TTL |
| TtlLruCaches.OrderIsLastTouchOrder | packages/authz/src/pip/ttl-lru-cache.ts:20-46 | the map's order is the order of last touch |
| TtlLruCaches.Survives | packages/authz/src/pip/ttl-lru-cache.ts:20-46 | from its last touch a key keeps its entry while fewer than the capacity of distinct other keys are touched, however often it is itself read before it expires |
| CacheKeys.TenantsShareKeyIff | packages/authz/src/pip/http-pip.client.ts:125-127 | two tenants have a cache key in common if and only if one tenant id, closed by the separator, begins the other |
| CacheKeys.ScopesShareKeyIff | packages/authz/src/pip/http-pip.client.ts:125-127 | two scopes of one tenant have a key in common if and only if one scope, opened by the separator, ends the other |
| CacheKeys.UnambiguousIffNoClash | packages/authz/src/pip/http-pip.client.ts:125-127 | over given tenants and scopes, and all users, a key names one principal if and only if no two of them clash in these ways |
| CacheKeys.CacheKeyInjective | packages/authz/src/pip/http-pip.client.ts:125-127 | with no colon in tenants and scopes, whatever the user ids, a key names one user, tenant and scope |
| CacheKeys.CacheKeyCollides | packages/authz/src/pip/http-pip.client.ts:125-127 | every key of a tenant whose id goes on from another's with a colon, or with the separator, is also a key of that other tenant |
| PipClients.HttpPipClient.ResolveUntilAwait | packages/authz/src/pip/http-pip.client.ts:46-68 | cached value, else pending fetch, else a new fetch recorded as pending unless forced, with both maps' new contents |
| PipClients.HttpPipClient.FillCache | packages/authz/src/pip/http-pip.client.ts:119-122 | a response is written to the cache and to nothing else |
| PipClients.HttpPipClient.ResolveFinally | packages/authz/src/pip/http-pip.client.ts:71-73 | the clean-up removes whatever is pending under the key |
| PipReads.CacheOfRun | packages/authz/src/pip/http-pip.client.ts:46-123 | any stretch of any run of the client changes the cache as the cache operations of its events do |
| PipReads.FilledIsServed | packages/authz/src/pip/http-pip.client.ts:54-58 | once a fetch has completed, every unforced call for the key gets its value and starts no fetch, for the whole TTL, until an invalidation or another completed fetch, while fewer other keys are touched than the cache holds |
| PipReads.ReadsNeverGoBack | packages/authz/src/pip/http-pip.client.ts:46-123 | in a run that never forces a key, of two calls answered at different times the later got what the owner held no earlier |
| PipOrder.LaterCallsReadNoEarlier | packages/authz/src/pip/http-pip.client.ts:46-123 | in such a run a call begun when another had its answer got what the owner held no earlier |
| PipOrder.ForcedReadsGoBack | packages/authz/src/pip/http-pip.client.ts:65-73 | for every key, a run in which a forced call gets the owner's new value and a call begun after that, however late within the TTL, gets the old one |
| PipOrder.ForcedLeavesWaiterBehind | packages/authz/src/pip/http-pip.client.ts:59-73 | for every key, a run in which a call kept waiting by an overtaken fetch gets the old value after the forced one got the new |
| PipOrder.CallOrderIff | packages/authz/src/pip/http-pip.client.ts:46-123 | over all runs that force calls for given keys only, no call for a key gets a value read before one already returned when it began, if and only if the key is not one of them or nothing is cached |
| PipOrder.TimeOrderIff | packages/authz/src/pip/http-pip.client.ts:46-123 | over the same runs, of two calls answered at different times the later never gets a value read earlier, if and only if the key is not forced or every value is returned at the time it is read |
| PipOrder.MaxAgeIff | packages/authz/src/pip/http-pip.client.ts:46-123 | a number bounds the age of every value returned in every run if and only if it is at least the timeout plus the TTL, less the last millisecond of a TTL that is not zero |
| PipOrder.OldestServed | packages/authz/src/pip/http-pip.client.ts:46-123 | for every key, a run in which a call gets a value of that age, which the owner gave up right after it was read |
| PipInvalidation.InvalidationHoldsIff | packages/authz/src/pip/http-pip.client.ts:76-123 | however a run goes on from an invalidation, every call for the key begun after it gets a value read after it, if and only if no fetch for the key has read and can still hand its value on, being pending or about to be cached |
| PipInvalidation.InvalidatedComesBack | packages/authz/src/pip/http-pip.client.ts:76-123 | for every key, a run in which a call begun after the change and the invalidation, however late within the TTL, gets the old value |
| PipAnswers.ResumeAnswers | packages/authz/src/pip/http-pip.client.ts:59-73 | over every run, a call that continues gets the value its fetch was fulfilled with, or fails if it was rejected, whether it started or joined it; no other call changes |
| PipAnswers.Drain | packages/authz/src/pip/http-pip.client.ts:59-73 | from every reachable state, resuming calls alone leads to one where nobody is due and every call that was has its fetch's outcome |
| PipAnswers.NobodyHangs | packages/authz/src/pip/http-pip.client.ts:59-73 | every reachable state leads to one in which no call waits and the answered ones kept their answers |
| PipClients.RunKeeps | packages/authz/src/pip/http-pip.client.ts:46-123 | the protocol's invariant holds at every position of every interleaving |
| PipClients.ReturnedValueIsFresh | packages/authz/src/pip/http-pip.client.ts:46-123 | a value returned at time t was the owner's value at a moment from t - ttl - timeout (not itself included unless the TTL is zero) to t, and for a forced call at or after the call began |
| PipClients.HitIsStrictlyFresher | packages/authz/src/pip/http-pip.client.ts:54-58 | a cached value served at t was the owner's value strictly after t - ttl - timeout |
| PipClients.FailedFetchLeavesNothing | packages/authz/src/pip/http-pip.client.ts:65-73 | after its clean-up a fetch is pending nowhere, and a failed one is cached nowhere, ever |
| PipClients.SingleFlightKeptIff | packages/authz/src/pip/http-pip.client.ts:65-73 | a step keeps single flight for a key if and only if it is not a forced fetch cleaning up over a pending one |
| PipClients.AtMostOneFetch | packages/authz/src/pip/http-pip.client.ts:59-73 | in a run without such a step at most one unforced fetch per key is outstanding |
| PipClients.UnforcedRunKeepsSingleFlight | packages/authz/src/pip/http-pip.client.ts:54-73 | a run that never forces a key has no such step for it |
| PipClients.SingleFlightIffNoOrphaning | packages/authz/src/pip/http-pip.client.ts:59-73 | over a whole run the pending map names exactly the unforced fetches under way for a key if and only if no forced fetch cleans up over a pending one |
| PipClients.MissBesideOrphanIff | packages/authz/src/pip/http-pip.client.ts:59-68 | when nothing is pending, an unforced miss leaves two fetches outstanding if and only if one was outstanding already |
| PipClients.ForcedCleanUpOrphans | packages/authz/src/pip/http-pip.client.ts:65-73 | for every key, a run in which a forced clean-up leads to two outstanding unforced fetches |
| JsText.ParseUndoesEscape | apps/audit/src/modules/audit-event/domain/hash-chain.ts:71-71 | JSON string escaping (section 7 of RFC 8259) can be undone, whatever follows the closing quote |
| JsText.Utf8ReadsBackRepaired | apps/audit/src/modules/audit-event/domain/hash-chain.ts:76-80 | a UTF-8 reader (section 3 of RFC 3629) reads the bytes of any UTF-16 text back as that text, lone surrogates replaced |
| JsText.Utf8ReadsBack | apps/audit/src/modules/audit-event/domain/hash-chain.ts:76-80 | on well-formed text the bytes read back as the text |
| JsText.EscapesShortest | apps/audit/src/modules/audit-event/domain/hash-chain.ts:71-71 | a unit takes two characters if the reader knows such an escape for it, six if it is another control unit or a surrogate, else one |
| JsText.EscapeWellFormed | apps/audit/src/modules/audit-event/domain/hash-chain.ts:71-71 | what JSON printing produces is well-formed, lone surrogates in the input included |
| JsText.HexReadsBack | apps/audit/src/modules/audit-event/domain/hash-chain.ts:80-80 | the hex digits, two a byte, read back as the digest |
| JsText.HexOfIsLowerCase | apps/audit/src/modules/audit-event/domain/hash-chain.ts:80-80 | they are decimal or lower-case |
| HashChains.CanonicalInjective | apps/audit/src/modules/audit-event/domain/hash-chain.ts:54-72 | the canonical form determines the event; null never prints like a string |
| HashChains.CanonicalReadsBack | apps/audit/src/modules/audit-event/domain/hash-chain.ts:54-72 | a JSON reader finds the twelve fields of the event under their own names, in the fixed order |
| HashChains.PreimageInjective | apps/audit/src/modules/audit-event/domain/hash-chain.ts:75-81 | the hashed bytes determine the previous hash and the event |
| HashChains.PreimageReadsBack | apps/audit/src/modules/audit-event/domain/hash-chain.ts:75-81 | of the hashed bytes, those before the last newline read as the previous hash and those after it as the canonical form |
| HashChains.GenesisIs64Zeros | apps/audit/src/modules/audit-event/domain/hash-chain.ts:23-24 | the anchor is 64 zero characters |
| HashChains.VerifyChain | apps/audit/src/modules/audit-event/application/use-cases/verify-chain.use-case.ts:27-66 | accepts exactly the logs that replay, and otherwise reports the first bad record, the check it failed and the last good hash |
| HashChains.SameHeadSameLog | apps/audit/src/modules/audit-event/application/use-cases/verify-chain.use-case.ts:27-66 | two accepted logs with one head hash have the same events in the same order, or a collision or genesis preimage is at hand |
| HashChains.TamperingIsEvident | apps/audit/src/modules/audit-event/application/use-cases/verify-chain.use-case.ts:27-66 | against an anchored head, a list is accepted if it differs from the accepted log in `seq` and `recordedAt` at most, and if it is accepted and differs in anything else, a collision or genesis preimage is at hand |
| HashChains.SameContentsSameSigned | apps/audit/src/modules/audit-event/application/use-cases/verify-chain.use-case.ts:27-66 | two accepted logs with the same events are equal record by record but for `seq` and `recordedAt` |
| HashChains.OnlyTruncationsReplayIff | apps/audit/src/modules/audit-event/application/use-cases/verify-chain.use-case.ts:27-66 | of the lists made by deleting, reordering or repeating an accepted log's records replay alone accepts exactly its beginnings, if and only if its chain repeats no hash |
| HashChains.RepeatedHashIsCollision | apps/audit/src/modules/audit-event/application/use-cases/verify-chain.use-case.ts:27-66 | an accepted chain that repeats a hash has produced a collision or a genesis preimage |
| HashChains.TruncationReplays | apps/audit/src/modules/audit-event/application/use-cases/verify-chain.use-case.ts:27-66 | a truncated log is accepted; only an anchored head hash tells |
| HashChains.UnsignedFieldsInvisible | apps/audit/src/modules/audit-event/domain/hash-chain.ts:26-31 | renumbering or re-dating records changes neither the verdict nor the head hash |
| AuditLogs.InMemoryAuditLog.Append | apps/audit/src/modules/audit-event/__tests__/in-memory-audit-event.repository.ts:26-56 | a duplicate id changes nothing; otherwise the record is appended, linked to the head, with the next number, and the log stays gap-free and replayable |
| AuditLogs.ReadHeadIsLast | apps/audit/src/modules/audit-event/infrastructure/typeorm-audit-event.repository.ts:131-138 | with increasing numbers the row with the highest number is the last one written |
| AuditLogs.NextKeeps | apps/audit/src/modules/audit-event/infrastructure/typeorm-audit-event.repository.ts:47-83 | every step of interleaved appends keeps the log replayable, ids unique and numbers increasing |
| AuditLogs.EveryRunKeepsGoodLog | apps/audit/src/modules/audit-event/infrastructure/typeorm-audit-event.repository.ts:47-83 | so it is at every point of every interleaving, and each row belongs to exactly one append, a committed one |
| AuditLogs.AppendOnly | apps/audit/src/modules/audit-event/infrastructure/typeorm-audit-event.repository.ts:47-83 | no run changes or removes a row |
| AuditLogs.FailedAppendLeavesNoRow | apps/audit/src/modules/audit-event/infrastructure/typeorm-audit-event.repository.ts:68-82 | an append that was a duplicate, ran out of retries or crashed owns no row, then or ever after |
| AuditLogs.EndsForAReason | apps/audit/src/modules/audit-event/infrastructure/typeorm-audit-event.repository.ts:47-83 | in every run an append that reports a duplicate has its id in the log, and one that runs out of attempts has failed exactly five times, by aborts or taken record hashes |
| AuditLogs.RowsFromArrivals | apps/audit/src/modules/audit-event/application/use-cases/record-audit-event.use-case.ts:58-81 | in every run each row says what some event said when it came in, content and time |
| AuditLogs.StaleHeadNeverMatters | apps/audit/src/modules/audit-event/application/use-cases/record-audit-event.use-case.ts:58-81 | two runs that differ only in the heads the use cases had read write the same log and end every append alike |
| AuditLogs.GapFreeIffNoneMissingBelow | apps/audit/src/modules/audit-event/infrastructure/typeorm-audit-event.repository.ts:22-32 | at every point of every run the log's numbers are 1, 2, 3, ... if and only if every number that was lost, or is held by an append under way, exceeds the last row's |
| AuditLogs.EveryRunAccounted | apps/audit/src/modules/audit-event/infrastructure/typeorm-audit-event.repository.ts:61-64 | in every run each number drawn is in the log, under way, or lost, and never two of these |
| AuditLogs.RetryLeavesGap | apps/audit/src/modules/audit-event/infrastructure/typeorm-audit-event.repository.ts:22-32 | a reachable log that begins with number 2 |
| AuditLogs.AuditTable.AppendOnce | apps/audit/src/modules/audit-event/infrastructure/typeorm-audit-event.repository.ts:51-67 | one transaction fails if and only if it crashes, else finds the id taken if and only if it is in the table it inserts into, else writes the event unchanged, linked to the head it read, if and only if nothing disturbs it and its hash is free |
| AuditLogs.AuditTable.Append | apps/audit/src/modules/audit-event/infrastructure/typeorm-audit-event.repository.ts:47-83 | the retry loop: every attempt but the last met an abort, a racing append or a taken hash, and the last ends it as its own crash, duplicate, success or fifth failure demands; on success the record is the last row, linked to the row before it, and on failure no row is ours |
| AuditLogs.AppendAnswers | apps/audit/src/modules/audit-event/infrastructure/typeorm-audit-event.repository.ts:47-83 | so an id already stored is reported as a duplicate, the store fails only in a crash, and the first attempt that runs undisturbed with id and hash free writes the record; attempts run out only at the fifth |
| AuditPaging.PageLimit | packages/kernel/src/pagination/pagination.ts:21-27 | a page limit is the one asked for, 20 if none is, and the nearest of 1 and 100 if it lies outside them |
| AuditPaging.FirstPage | apps/audit/src/modules/audit-event/__tests__/in-memory-audit-event.repository.ts:71-75 | a page is a beginning of the selected rows, full unless they run out, with a next cursor exactly when some are left |
| AuditPaging.ListInMemory | apps/audit/src/modules/audit-event/__tests__/in-memory-audit-event.repository.ts:62-76 | sort and filters compute the page: newest first, cut at the limit, cursor only if more rows follow |
| AuditPaging.ListFromDatabase | apps/audit/src/modules/audit-event/infrastructure/typeorm-audit-event.repository.ts:92-119 | fetching one row more than the limit computes the same page |
| AuditPaging.CursorCuts | apps/audit/src/modules/audit-event/infrastructure/typeorm-audit-event.repository.ts:104-107 | the cursor of a row selects exactly the rows after it |
| AuditPaging.NewestFirstExact | apps/audit/src/modules/audit-event/infrastructure/typeorm-audit-event.repository.ts:92-107 | the list holds exactly the tenant's rows below the cursor, numbers descending |
| AuditPaging.WalkReadsFirstLog | apps/audit/src/modules/audit-event/__tests__/in-memory-audit-event.repository.ts:62-76 | whatever is appended between pages, what has been read is a beginning of the tenant's log as it stood at the first page, and all of it exactly when no cursor follows |
| AuditPaging.WalkEnds | apps/audit/src/modules/audit-event/__tests__/in-memory-audit-event.repository.ts:62-76 | following the cursors ends, after at most as many pages as that log has rows, or one |
| AuditPaging.WalkThroughARun | apps/audit/src/modules/audit-event/infrastructure/typeorm-audit-event.repository.ts:92-119 | the same for pages read at any moments of any run of interleaved appends |
| PolicyCompiler.CompilePreserves | packages/authz/src/policy/compile-policy.ts:67-93 | with at most one field set at each level, compiling keeps a condition's truth for every evaluator and nesting |
| PolicyCompiler.PreservedIffAtMostOneField | packages/authz/src/policy/compile-policy.ts:67-79 | which fields are set decides it: truth is kept for all such conditions if and only if at most one is |
| PolicyCompiler.OperandIsCondition | packages/authz/src/policy/compile-policy.ts:81-93 | an operand compiles as the condition it is |
| PolicyCompiler.VerdictPreserved | packages/authz/src/policy/compile-policy.ts:29-65 | compiled rules decide every request as the authored ones do |
| PolicyCompiler.DefaultNamesDistinct | packages/authz/src/policy/compile-policy.ts:53-59 | rules without names get different ones |
| PolicyCompiler.NamesKept | packages/authz/src/policy/compile-policy.ts:53-59 | a rule keeps its own name, and one without is called `rule_` and its index in decimal |
| ScopeChains.ForScope | apps/authz-admin/src/modules/principal/domain/value-objects/scope-chain.vo.ts:25-40 | accepts exactly the valid scopes, with the error of the first check that fails, and lists the prefixes root first |
| ScopeChains.ScopeIffPattern | apps/authz-admin/src/modules/principal/domain/value-objects/scope-chain.vo.ts:9-40 | a scope is one to eight labels that a reader of the pattern `[a-z0-9]+(?:_[a-z0-9]+)*` accepts |
| ScopeChains.ChainIsAncestorsOrSelf | apps/authz-admin/src/modules/principal/domain/value-objects/scope-chain.vo.ts:36-40 | the chain holds exactly the segment-wise ancestors and the scope itself, which is last |
| ScopeChains.DepthOfIsSegmentCount | apps/authz-admin/src/modules/principal/domain/value-objects/scope-chain.vo.ts:53-56 | the rank of an ancestor-or-self is its number of labels less one; others have none |
| PolicyPublisher.ParseRulesIsPointwise | apps/authz-admin/src/modules/policy/infrastructure/publishing/cerbos-policy-mapper.ts:97-138 | a body parses exactly when every rule does, and the error is the first bad rule's |
| PolicyAuthoring.AcceptedIff | apps/authz-admin/src/modules/policy/infrastructure/publishing/cerbos-policy-mapper.ts:97-138 | a body is accepted if and only if it has a non-blank resource and a list of rules, each with non-empty string lists of actions and roles and an effect of `ALLOW` or `DENY` |
| PolicyAuthoring.RejectedIff | apps/authz-admin/src/modules/policy/infrastructure/publishing/cerbos-policy-mapper.ts:97-138 | each error comes in exactly its case: the resource, then the list, then the first fault of the first bad rule |
| PolicyAuthoring.ParsedIsRaw | apps/authz-admin/src/modules/policy/infrastructure/publishing/cerbos-policy-mapper.ts:107-138 | an accepted rule applies to the requests its raw form applies to, and denies if and only if its effect is the text `DENY` |
| PolicyPublisher.AncestorScopes | apps/authz-admin/src/modules/policy/infrastructure/publishing/cerbos-policy-mapper.ts:172-182 | the loop lists the proper ancestors, most specific first |
| PolicyPublisher.ScopeThenAncestorsIsReversedChain | apps/authz-admin/src/modules/policy/infrastructure/publishing/cerbos-policy-mapper.ts:172-182 | a scope and then its ancestors is the principal side's chain reversed |
| PolicyPublisher.MapPolicyToCerbosFiles | apps/authz-admin/src/modules/policy/infrastructure/publishing/cerbos-policy-mapper.ts:58-89 | guarded leaf first, then an empty document per ancestor, or the parse error |
| PolicyAuthoring.FsCerbosPolicyPublisher.Publish | apps/authz-admin/src/modules/policy/infrastructure/publishing/fs-cerbos-policy.publisher.ts:46-73 | publishing succeeds if and only if the raw body is well shaped and the disk takes all files; then every same-tenant request at the scope gets what the raw rules say, else what the base does; a bad body changes nothing and a failing disk leaves exactly the earlier files |
| PolicyPublisher.CrossTenantAlwaysDenied | apps/authz-admin/src/modules/policy/infrastructure/publishing/cerbos-policy-mapper.ts:16-31 | at every moment of every interleaving of publications, complete or not, a request across tenants is denied at every scope |
| PolicyPublisher.PublishedRulesDecide | apps/authz-admin/src/modules/policy/infrastructure/publishing/cerbos-policy-mapper.ts:58-89 | right after a publication a same-tenant request at its scope gets what the authored rules say, else what the base says |
| PolicyPublisher.PublishEmptiesAncestors | apps/authz-admin/src/modules/policy/infrastructure/publishing/cerbos-policy-mapper.ts:77-86 | after a publication only the base decides at every proper ancestor, whatever policy was there |
| PolicyPublisher.EarlierPolicySurvivesIff | apps/authz-admin/src/modules/policy/infrastructure/publishing/cerbos-policy-mapper.ts:77-86 | a document at another scope outlives a publication if and only if that scope is not the published one or an ancestor of it |
| PolicyPublisher.FileNamesMeetIff | apps/authz-admin/src/modules/policy/infrastructure/publishing/cerbos-policy-mapper.ts:162-165 | two policies of different kinds own one file exactly when the longer kind is the shorter, a dot and the rest that turns up in the shorter's scope |
| PolicyPublisher.KindsShareFileIff | apps/authz-admin/src/modules/policy/infrastructure/publishing/cerbos-policy-mapper.ts:162-165 | two kinds can share a file under policy scopes if and only if one extends the other by a dot and labels that leave room for one more |
| PolicyPublisher.FileNamesDistinct | apps/authz-admin/src/modules/policy/infrastructure/publishing/cerbos-policy-mapper.ts:162-165 | otherwise a file name determines kind and scope |
| PolicyPublisher.SameKindSameFileIff | apps/authz-admin/src/modules/policy/infrastructure/publishing/cerbos-policy-mapper.ts:162-165 | of one kind, two scopes have one file if and only if they are one, or one is called `base` and the other is the base policy's empty scope |
| PolicyPublisher.CompletePublishKeepsClosedIff | apps/authz-admin/src/modules/policy/infrastructure/publishing/fs-cerbos-policy.publisher.ts:46-57 | completed publications of one kind keep every scope's ancestors present for another kind, or the same, if and only if the first cannot take from the second a document that has room for one below it |
| PolicyPublisher.DotFreeKindsKeepClosed | apps/authz-admin/src/modules/policy/infrastructure/publishing/cerbos-policy-mapper.ts:162-165 | two kinds without a dot always keep each other's scopes closed |
| PolicyPublisher.MidPublishClosedIff | apps/authz-admin/src/modules/policy/infrastructure/publishing/fs-cerbos-policy.publisher.ts:54-57 | after one or more of its writes that holds if and only if every ancestor not yet written was there before |
| PolicyPublisher.PolicyScopeIffPattern | apps/authz-admin/src/modules/policy/domain/value-objects/policy-scope.vo.ts:3-10 | a policy scope is one to eight labels matching `[a-z0-9]+` |
| PolicyPublisher.OrgPathIsScopeIffNoHyphen | apps/authz-admin/src/modules/policy/domain/value-objects/policy-scope.vo.ts:3-10 | an org-unit path is a policy scope, and a principal scope, if and only if it has no hyphen |
| RateLimiters.FixedWindowRateLimiter.Consume | apps/gateway/src/modules/rate-limit/domain/fixed-window-rate-limiter.ts:55-84 | the in-place call is the decision and the new windows on values |
| RateLimiters.FixedWindowRateLimiter.Prune | apps/gateway/src/modules/rate-limit/domain/fixed-window-rate-limiter.ts:87-93 | removes exactly the elapsed windows |
| RateLimiters.AdmissionBound | apps/gateway/src/modules/rate-limit/domain/fixed-window-rate-limiter.ts:55-93 | under a clock that does not go back, any half-open stretch of length T admits fewer than max * (ceil(T / window) + 1) requests of a key |
| RateLimiters.OneWindowBound | apps/gateway/src/modules/rate-limit/domain/fixed-window-rate-limiter.ts:55-93 | a stretch of one window admits fewer than twice the quota |
| RateLimiters.OneWindowBoundReached | apps/gateway/src/modules/rate-limit/domain/fixed-window-rate-limiter.ts:55-93 | a run that admits 2 * max - 1 in one window's length, so the bound is tight |
| RateLimiters.RemainingIsExact | apps/gateway/src/modules/rate-limit/domain/fixed-window-rate-limiter.ts:75-83 | `remaining`, of an admission or a denial, is how many more requests of a burst before the reset are admitted |
| RateLimiters.PruningIsInvisible | apps/gateway/src/modules/rate-limit/domain/fixed-window-rate-limiter.ts:87-93 | pruning at any points of a run changes no decision |
| RateLimiters.DeniedUntilReset | apps/gateway/src/modules/rate-limit/domain/fixed-window-rate-limiter.ts:61-73 | a denied client that then stays quiet is admitted if and only if the reset time has come, whatever others do |
| RateLimiters.RetryAfterSuffices | apps/gateway/src/modules/rate-limit/domain/fixed-window-rate-limiter.ts:64-73 | waiting the advised seconds is enough, and one second less falls short of the reset unless the advice was one second |
| OptimisticLock.Expense.Approve | apps/expense/src/modules/expense/domain/expense.entity.ts:192-207 | an approval succeeds if and only if the expense is pending, and then sets status, version and time; an approved and a rejected expense each give their own error and nothing changes |
| OptimisticLock.RoleAssignment.Revoke | apps/authz-admin/src/modules/role-assignment/domain/role-assignment.entity.ts:181-202 | a revocation succeeds if and only if the assignment is active, and then sets status, version and time; otherwise it gives its error and nothing changes |
| OptimisticLock.GuardedCopyIsCurrent | apps/authz-admin/src/shared/infrastructure/database/optimistic-persist.ts:42-55 | in every reachable state the compare-and-set succeeds only on the very row that was loaded |
| OptimisticLock.NextKeeps | apps/authz-admin/src/shared/infrastructure/database/optimistic-persist.ts:31-63 | every step of interleaved transactions keeps the version chains, the locks and the record of writers in order |
| OptimisticLock.VersionsAreOneTransitionApart | apps/authz-admin/src/shared/infrastructure/database/optimistic-persist.ts:31-63 | each row's committed versions are 1, 2, 3, ..., each one domain transition from the one before: no update is lost |
| OptimisticLock.CommittedChangesByStatus | apps/expense/src/modules/expense/domain/expense.entity.ts:192-207 | in every run an approval leads from pending to approved, a revocation from active to revoked, and an approved, rejected or revoked row never gets a later version |
| OptimisticLock.HistoryGrows | apps/authz-admin/src/shared/infrastructure/database/rls.interceptor.ts:52-81 | committed versions are never changed or dropped |
| OptimisticLock.AllRowsOrNone | apps/authz-admin/src/shared/infrastructure/database/rls.interceptor.ts:52-81 | a transaction has an entry in a row's history, and then one, if and only if it committed and changed or created that row in the run |
| OptimisticLock.SettlesAtMostOnce | apps/expense/src/shared/infrastructure/database/optimistic-persist.ts:24-56 | under every interleaving at most one approval of an expense, and one revocation of an assignment, commits |
| OptimisticLock.OneWriterPerVersion | apps/expense/src/shared/infrastructure/database/optimistic-persist.ts:24-56 | two committed transactions never write the same version of a row |
| OptimisticLock.SaveSucceedsIff | apps/authz-admin/src/shared/infrastructure/database/optimistic-persist.ts:31-63 | in every run a save goes on if and only if the copy is of the row as it is now, and then holds its lock and new version; otherwise the transaction is over |
| OptimisticLock.SoloCommits | apps/authz-admin/src/shared/infrastructure/database/rls.interceptor.ts:52-81 | a transaction that no other disturbs commits every change it set out to make, and nothing else |
| EffectiveRoles.FindActiveGrantsExact | apps/authz-admin/src/modules/principal/infrastructure/typeorm-principal.projection.ts:40-68 | the query yields exactly the active, unexpired grants of existing roles on the chain |
| EffectiveRoles.DeepestIsMaximum | apps/authz-admin/src/modules/principal/application/use-cases/resolve-principal.use-case.ts:67-79 | a role's rank is the greatest depth among its grants, and one of them has it |
| EffectiveRoles.FirstIsFirst | apps/authz-admin/src/modules/principal/application/use-cases/resolve-principal.use-case.ts:67-79 | a role's place is that of its first grant |
| EffectiveRoles.DedupeMostSpecificFirst | apps/authz-admin/src/modules/principal/application/use-cases/resolve-principal.use-case.ts:72-82 | each granted role once, ordered by deepest grant and then by first appearance |
| EffectiveRoles.MostSpecificFirstDetermines | apps/authz-admin/src/modules/principal/application/use-cases/resolve-principal.use-case.ts:67-82 | that order determines the list, and no role stands in it twice |
| EffectiveRoles.DeriveDepartment | apps/authz-admin/src/modules/principal/application/use-cases/resolve-principal.use-case.ts:90-103 | the requested scope's second label, present exactly when some grant lies below the root |
| EffectiveRoles.ResolvePrincipal | apps/authz-admin/src/modules/principal/application/use-cases/resolve-principal.use-case.ts:49-64 | roles and department of a valid scope, and an error for any other |
| EffectiveRoles.RolesAreTheEffectiveOnes | apps/authz-admin/src/modules/principal/application/use-cases/resolve-principal.use-case.ts:49-64 | a role is listed if and only if the user holds it, active and unexpired, at the scope or a segment-wise ancestor |
| EffectiveRoles.NarrowerScopeHasMore | apps/authz-admin/src/modules/principal/application/use-cases/resolve-principal.use-case.ts:24-27 | a narrower scope has every role of a wider one |

## Left out

- Names, timestamps, tenant columns, domain events, views and request validation of aggregates other than the segment pattern: carried along, with no bearing on the properties. `updatedAt` is kept only where `approve` and `revoke` set it.
- Interleaved org-unit transactions: the tree invariant is claimed for one transaction at a time. For interleaved ones only the per-row guarantees of `OptimisticLock` hold.
- `listSubtree`'s cursor and every `createdAt|id` cursor: their paging depends on how the database compares text and timestamps. Cursors are modelled decoded; base64url is library code.
- An event's `occurredAt` is the ISO string that is hashed; parsing it, trimming optional fields and the use case's early look-up of a known id are not modelled. The append finds the duplicate all the same.
- Database internals: the order of rows in an unordered query is whatever the sequence given says, and a serialization failure can strike any append, not only one that lost a race.
- `storeIdentifier`, annotations, the constant version and derived-role import of a policy document, YAML, temporary files and renames: provenance and serialization. A write replaces a whole file.
- PolicyPublisher.ParseRulesIsPointwise: a rule's condition is taken as already of its contract type; JSON of any other shape in that place is not modelled.
- The policy engine's loader, globs other than `*`, derived roles, and lenient scope search.
- The HTTP exchange of the principal client beyond its outcome, and error texts.
- The JWT signer and verifiers, refresh tokens, route table, tenant, role and permission aggregates, the web client: one-branch or library code.
