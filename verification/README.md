# Coivitas protocol model

A Dafny model of the stateful core of the Coivitas agent protocol: capability delegation, the request
orchestrator, the hash-chain migration, the federated resolver, hash chains and Merkle proofs, encrypted
sessions, the rate limiter and the codecs below them. Each module follows one component; what the source
keeps in mutable fields is a class here, its loops are loops, and each method is proved against a
specification whose properties are the lemmas.

| component | files |
|---|---|
| delegation | `Windows.dfy`, `Capabilities.dfy`, `Attenuation.dfy`, `Tokens.dfy`, `DelegationChain.dfy`, `ChainMeaning.dfy`, `DelegationTheorems.dfy` |
| orchestrator | `Reservations.dfy`, `ResponseCache.dfy`, `Orchestrator.dfy`, `Quota.dfy` |
| migration 028 | `Migration.dfy`, `MigrationRun.dfy` |
| resolver | `Quorum.dfy`, `Resolver.dfy`, `RollingWindow.dfy` |
| chains and proofs | `HashChain.dfy`, `Merkle.dfy` |
| sessions | `SessionRegistry.dfy`, `Replay.dfy` |
| limits and codecs | `RateLimiter.dfy`, `Base58.dfy`, `Encoding.dfy`, `Common.dfy` |

`dafny verify dfyconfig.toml` checks everything.

## Abstractions

- SHA-256, Ed25519, AEAD, canonical JSON, schemas and key lookup are function parameters. No hash is ever
  assumed injective: lemmas that need it exhibit a collision instead. Signature schemes are only assumed
  to verify what they signed, and only for completeness.
- Timestamps are integers on one clock (the source compares some as text and some as dates, which agree
  for its fixed UTC format); floating point is `real`, with NaN kept where the code treats it apart.
- Asynchronous code is a sequence of atomic steps between awaits; what the network, the database, the
  recorder, the tracker or a crash does is an input, so theorems range over every failure pattern.

## Where code and intent differ

- A recurring window accepted by `validateAttenuation` need not be contained in its parent under
  `scope-evaluator.ts`, which counts the hours after midnight for the day before. The exact condition is
  `Windows.AcceptedIsContained`.
- The base58 round trip fails for non-empty all-zero input, a hash chain whose first record omits
  `prevHash` does not verify from its second record on, Retry-After promises nothing below one request per
  window, and a root token with a temporal or cumulative scope can be delegated but never validated. Each has its exact condition.
- A post-execution failure reported as INVALID_MESSAGE is marked cacheable but never cached, so a redelivery
  executes again (`Orchestrator.RedeliveryExecutesAgain`).
- Migration 028 compares `chain_position` with the number zero (028 script, line 518), but the column is
  BIGINT (`packages/policy/sql/021_hash_chain_entries.sql:30`), which the driver returns as text and for which
  no parser is registered (`packages/shared/src/database.ts:6-10`). The query of line 538 then looks for position
  -1 and the batch fails, so a chain whose first row is pending is never migrated, on any run. How positions
  arrive is the constant `numeric` of `MigrationRun.Database`; `Migrate` and `MigrateWithRestarts` state exactly
  when runs complete, and `TextHidesStart` is the smallest table on which they differ.
- The amount of a cumulative request is only checked to be a number; any negative one defeats the quota
  (`Quota.QuotaIsExact`).

## Model

| member | source | states |
|---|---|---|
| `Windows.ExpandToMinuteSet` | packages/identity/src/token-issuer.ts:154-164 | the two filling loops produce exactly the minutes of [start, end), wrapped past midnight when start is after end, and the partial sets that unparsable times give |
| `Windows.IsTimeRangeSubset` | packages/identity/src/token-issuer.ts:167-179 | the loop over the child minutes decides inclusion of the two minute sets |
| `Windows.ActiveMeaning` | packages/policy/src/guard/scope-evaluator.ts:223-302 | the evaluator in hours and minutes: active from start until end on a listed day, and past midnight until end on the day after a listed one |
| `Windows.WindowSubsetMeaning` | packages/identity/src/token-issuer.ts:233-291 | the issuer accepts a window exactly when the zone is the same, no day is new and every minute lies on the arc of the parent |
| `Windows.MinuteSetIsArc` | packages/identity/src/token-issuer.ts:154-164 | a minute is in the set exactly when it lies on the forward arc of the clock face from start to end |
| `Windows.SubsetIsArcContainment` | packages/identity/src/token-issuer.ts:167-179 | inclusion of minute sets is containment of wrap-around intervals, in closed form: the child is empty, or its start lies ahead of the parent start by at most the slack left by its length |
| `Windows.AcceptedIsContained` | packages/identity/src/token-issuer.ts:233-291 | for windows the issuer accepts, containment under the evaluator holds if and only if the pair does not leak: the child is uninhabited, or the parent times are well formed and the child does not sit in the parent's hours after midnight on a day whose previous day the parent lacks |
| `Windows.LeakFree` | packages/policy/src/guard/scope-evaluator.ts:223-302 | at every local time a non-leaking accepted child that is active has an active parent, including the rule that hours after midnight count for the day before |
| `Windows.LeakWitness` | packages/policy/src/guard/scope-evaluator.ts:271-302 | every leaking pair has a local time at which the child is active and the parent is not |
| `Windows.LeakExample` | packages/policy/src/guard/scope-evaluator.ts:271-302 | 01:00-02:00 on Mondays is accepted under 22:00-06:00 on Mondays and is active on Monday at 01:30 when the parent is not |
| `Capabilities.NarrowsTransitive` | packages/identity/src/token-issuer.ts:188-324 | narrowing of single scopes is transitive over all five scope kinds |
| `Capabilities.NarrowsReflexive` | packages/identity/src/token-issuer.ts:188-324 | a scope narrows itself if and only if its type is known |
| `Capabilities.NarrowsIsInclusion` | packages/identity/src/token-issuer.ts:188-217 | the converse of containment: between two allowlists or two limits on one field, narrowing is inclusion of the requests that pass |
| `Capabilities.NarrowsByField` | packages/identity/src/token-issuer.ts:188-324 | temporal scopes narrow by a later start, an earlier end and a contained window, cumulative ones by a smaller maximum with all else equal, and nothing narrows across kinds or fields |
| `Capabilities.DetailMeaning` | packages/identity/src/token-issuer.ts:188-324 | the rule reported for a rejected pair is broken, and is the first one of its kind |
| `Capabilities.CheckMeaning` | packages/identity/src/token-verifier.ts:205-274 | the first-failure loop allows a request exactly when the token is issued to the agent, some capability names the action and every capability that does is satisfied |
| `Capabilities.RefusalMeaning` | packages/identity/src/token-verifier.ts:205-274 | each refusal has its cause: another agent, no capability for the action, or the first capability that is not satisfied, told apart by the kind of its scope |
| `Capabilities.LightMeaning` | packages/identity/src/token-verifier.ts:230-270 | an allowlist wants one of its texts; a limit bounds a number inclusively and lets a missing field and NaN through; no other scope passes |
| `Capabilities.LightContained` | packages/identity/src/token-verifier.ts:230-270 | a request that passes a narrowed scope passes the wider one |
| `Capabilities.EvaluationContained` | packages/policy/src/guard/scope-evaluator.ts:140-414 | the same for the evaluator: wildcards, missing and null numbers, validity interval, recurring window, running totals; windows must not leak |
| `Capabilities.EvaluatesMeaning` | packages/policy/src/guard/scope-evaluator.ts:140-414 | what each scope asks: a matching candidate, an inclusive bound on a number that is present and not null, the half-open validity interval and an open window, the running total with one for a call or the amount of a transaction |
| `Capabilities.CandidateMeaning` | packages/policy/src/guard/scope-evaluator.ts:322-328 | a candidate with a leading star stands for every text that ends with the rest of it, any other for itself |
| `Attenuation.ValidateAttenuation` | packages/identity/src/token-issuer.ts:344-518 | accepts exactly the attenuations, whatever the versions; a rejection names a reason true of the lists, and the first one: pre-checks before rule 1, rule 1 before rule 2, then the first action in order of occurrence and in it the first parent dimension missing or not narrowed, else the first dimension introduced; the mixed-version flag is set exactly for a phase 2 scope lost or gained across versions |
| `Attenuation.FindEmptyAllowlist` | packages/identity/src/token-issuer.ts:351-384 | finds an empty allowlist if and only if there is one, and names it |
| `Attenuation.FindDuplicateDimension` | packages/identity/src/token-issuer.ts:386-425 | with the map of seen dimensions, finds a repeated (action, dimension) if and only if there is one, and names it |
| `Attenuation.IndexByAction` | packages/identity/src/token-issuer.ts:427-433 | the map from action to scopes holds, for every action, the scopes of that action in order, and its keys come in the order of first occurrence |
| `Attenuation.CompareScopes` | packages/identity/src/token-issuer.ts:455-515 | rules 2a, 2b and 2c for one action, both directions; a rejection reports the first failing parent dimension, or the first introduced one when all parent dimensions are narrowed |
| `Attenuation.AttenuationTransitive` | packages/identity/src/token-issuer.ts:344-518 | attenuation is transitive |
| `Attenuation.AttenuationReflexive` | packages/identity/src/token-issuer.ts:344-518 | a list attenuates to itself if and only if its scope types are known, no allowlist is empty and no dimension is repeated |
| `Attenuation.KeyMeaning` | packages/identity/src/token-issuer.ts:132-152 | two scopes have one key exactly when they are of one kind and agree on the field, on metric and window, or are temporal |
| `Attenuation.AttenuationByDimension` | packages/identity/src/token-issuer.ts:427-515 | a child attenuates exactly when under each action it uses it constrains the same dimensions as the parent and narrows each; actions may be dropped |
| `Attenuation.OneScopeAttenuates` | packages/identity/src/token-issuer.ts:344-518 | on lists of one scope each, attenuation is one dimension and narrowing |
| `Attenuation.LimitsNarrow` | packages/identity/src/token-issuer.ts:206-217 | a numeric limit can be lowered and not raised |
| `Attenuation.AllowlistsNarrow` | packages/identity/src/token-issuer.ts:193-204 | an allowlist can be shortened, not extended and not emptied |
| `Attenuation.PermutationInvariant` | packages/identity/src/token-issuer.ts:344-518 | permuting either list does not change the verdict |
| `Attenuation.AttenuationContainsLight` | packages/identity/src/token-verifier.ts:219-273 | every request that passes the verifier loop for the child passes it for the parent |
| `Attenuation.AttenuationContains` | packages/policy/src/guard/scope-evaluator.ts:104-118 | the same for the scope evaluator, over every request, time and running total, under actions whose windows do not leak |
| `Attenuation.ContainmentIsLeakFreedom` | packages/policy/src/guard/scope-evaluator.ts:271-302 | for every action of an accepted child, containment in the parent under the evaluator holds if and only if no window pair under the action leaks or the child grants the action to no request at all |
| `Attenuation.GrantableMeaning` | packages/policy/src/guard/scope-evaluator.ts:104-414 | a list without repeated dimensions grants an action to some request, at some time and for some running totals, if and only if it names the action, every scope under it can be passed on its own (non-empty allowlist, non-empty validity interval with an inhabited window, a meter that can be read) and no field is wanted both as text and as a number |
| `Tokens.IssuedVerifies` | packages/identity/src/token-issuer.ts:59-124 | a freshly issued token verifies at every time from issue to expiry if and only if it has no temporal or cumulative scope, since it is stamped 0.1.0 |
| `Tokens.VerifyMeaning` | packages/identity/src/token-verifier.ts:40-203 | a token is valid exactly when it has the schema, is live, carries no delegations and no scope unknown to version 0.1.0, and is signed by the key its did:key issuer names, or with resolved keys by the current one, or by the previous one within its cut-off while rotating |
| `Tokens.IssueMeaning` | packages/identity/src/token-issuer.ts:59-124 | issuing succeeds exactly under its five conditions and yields the token asked for at version 0.1.0, signed by the issuer |
| `Tokens.DelegateMeaning` | packages/identity/src/token-issuer.ts:553-705 | delegating succeeds exactly for attenuated capabilities, a life within the parent's and depth below five; the new token extends the chain by one signed snapshot of the parent |
| `ChainMeaning.AcceptanceMeaning` | packages/identity/src/delegation-validator.ts:69-683 | a chain is accepted exactly when it is one to five long without a cycle, every hop is signed, agrees with its stored parent, narrows it and is live and not revoked, and the leaf is the signed end of it |
| `ChainMeaning.SignedThroughout` | packages/identity/src/delegation-validator.ts:175-242 | in an accepted chain every hop verifies under a key of its delegator that was valid when it was made, every parent between under one of the delegator before, the leaf under one of the last |
| `ChainMeaning.ReportMeaning` | packages/identity/src/delegation-validator.ts:69-683 | every failure that is reported is true of the chain, at the index it names |
| `ChainMeaning.EqualMeaning` | packages/identity/src/delegation-validator.ts:689-702 | capability lists compare equal exactly when one is the other in some order, up to the spelling of meter fields |
| `DelegationChain.ValidateDelegationChain` | packages/identity/src/delegation-validator.ts:69-683 | valid for an empty chain; otherwise valid exactly when both ports are given and every check holds, and a failure, with its index, is the first in the order gates, cycle, hops, leaf, signers, leaf signature |
| `DelegationChain.FindCycle` | packages/identity/src/delegation-validator.ts:145-157 | the growing set of seen holders detects a cycle if and only if two holders along the chain coincide |
| `DelegationChain.CheckHop` | packages/identity/src/delegation-validator.ts:175-543 | one turn of the hop loop reports exactly the first failing check of that hop |
| `DelegationChain.CheckHops` | packages/identity/src/delegation-validator.ts:174-544 | the hop loop reports the first broken hop, with all earlier hops intact |
| `DelegationChain.CheckLeaf` | packages/identity/src/delegation-validator.ts:546-680 | root, holder, capability, signer and signature checks on the leaf, both directions; a failure is the first of them, a wrong signer with the first hop that has one, a bad leaf signature with the last hop |
| `DelegationChain.EqualPermits` | packages/identity/src/delegation-validator.ts:689-702 | capability lists that compare equal up to order and canonical form permit the same requests under both readings |
| `DelegationTheorems.AuthorityAscends` | packages/identity/src/delegation-validator.ts:445-490 | by induction from the leaf, what the leaf permits every parent snapshot of the chain permits, modulo reordering between hops |
| `DelegationTheorems.AncestorOfHop` | packages/identity/src/delegation-validator.ts:245-543 | the token behind each hop is held by its delegator, shares the principal, outlives the leaf, is live and not revoked |
| `DelegationTheorems.RootIsPrincipalSigned` | packages/identity/src/delegation-validator.ts:365-384 | the root token carries no chain and is signed by the did:key of the principal |
| `DelegationTheorems.Soundness` | packages/identity/src/delegation-validator.ts:145-577 | an accepted chain: principal-signed root, every hop, token between and leaf signed by its delegator, live unrevoked ancestors that outlive the leaf, distinct holders, depth at most five, and every request permitted for the leaf is permitted for the root |
| `DelegationTheorems.SoundnessOfEvaluation` | packages/identity/src/delegation-validator.ts:445-490 | containment in the root for the scope evaluator, under every action for which no window of the leaf leaks from the root; the hops between do not matter |
| `DelegationTheorems.LeafAttenuatesRoot` | packages/identity/src/delegation-validator.ts:445-490 | attenuation composes across hops modulo reordering: the canonical form of an accepted leaf attenuates that of its root directly, however long the chain |
| `DelegationTheorems.SoundnessHopByHop` | packages/identity/src/delegation-validator.ts:445-490 | the same containment when no hop compares windows that leak |
| `DelegationTheorems.EvaluationIsLeakFreedom` | packages/identity/src/delegation-validator.ts:445-490 | for every action, the root of an accepted leaf contains it if and only if no window of the leaf under the action leaks from the root or the leaf grants the action to no request at all |
| `DelegationTheorems.LineageChain` | packages/identity/src/token-issuer.ts:635-690 | by induction, the n-th delegation carries a chain of exactly n proofs, the i-th naming the i-th token |
| `DelegationTheorems.ExpiryDescends` | packages/identity/src/token-issuer.ts:583-589 | expiry never grows along delegations |
| `DelegationTheorems.Completeness` | packages/identity/src/token-issuer.ts:553-705 | one issue followed by any number of successful delegations to fresh holders with matching keys, an honest store and nothing revoked is accepted at every time from root issue to leaf expiry if and only if the root has no phase 2 scope |
| `Reservations.EvaluateSenderCumulativeScopes` | packages/sdk/src/orchestrator.ts:2085-2208 | passes exactly when every scope is metered and the tracker grants it within the token limit; on success all reservations are in the log and open, on a tracker error everything is released, on a denial only what the caller will release is left |
| `Reservations.GrantsMeaning` | packages/sdk/src/orchestrator.ts:2100-2206 | a scope is granted exactly when the tracker lets it and the total with one for a call, or the amount of a transaction, is within the limit; a refusal of the tracker decides whatever the totals |
| `Reservations.FilterMeaning` | packages/policy/src/guard/cumulative-tracker.ts:91-102 | only transaction amounts are reserved for success alone |
| `Reservations.TrackedIsLogged` | packages/sdk/src/orchestrator.ts:2140-2206 | whatever the tracker reserved is accounted for, the reservation that goes over its limit included |
| `Reservations.CancelReservedRecords` | packages/sdk/src/orchestrator.ts:2231-2253 | attempts exactly one cancel per success-only reservation, in order, and none when the port lacks cancel |
| `Reservations.CancelReleases` | packages/sdk/src/orchestrator.ts:2210-2253 | cancelling releases exactly the success-only reservations of the list |
| `Reservations.OpenOrCancelled` | packages/sdk/src/orchestrator.ts:2210-2253 | a success-only reservation is still open or a cancel was attempted after it |
| `Orchestrator.VerifyCapability` | packages/sdk/src/orchestrator.ts:2004-2056 | allowed exactly when the token needs no metering or every scope is granted; otherwise nothing stays reserved |
| `Orchestrator.ExecuteWithPolicy` | packages/policy/src/engine.ts:123-242 | the success hook has fired exactly when guard and executor succeeded, whatever the recorder does afterwards; for every failure pattern the result is an execution, a recorded denial, or the error of the last recorder that failed |
| `Orchestrator.Execute` | packages/sdk/src/orchestrator.ts:1386-1531 | step 4 and step 5 on an allowed request, over every failure: a denial and a success are answered and may be cached unless the response cannot be built, everything else is raised with the reservations; the log is released or committed accordingly |
| `Orchestrator.Catch` | packages/sdk/src/orchestrator.ts:1532-1632 | compensates unless committed; answers INVALID_ENVELOPE for an invalid message and INTERNAL_ERROR otherwise, unless the response cannot be built; yields a cacheable specification exactly for a committed error that is not INVALID_MESSAGE |
| `Orchestrator.AgentOrchestrator.HandleEnvelope` | packages/sdk/src/orchestrator.ts:969-1632 | one delivery over every failure pattern: cache untouched before authentication, a hit answered from the cache without executing, otherwise execution, log, response and cache entry tied to what each step did |
| `Orchestrator.KeyOfMeaning` | packages/sdk/src/orchestrator.ts:1202-1207 | two deliveries share a cache key exactly when sender, session and envelope id agree |
| `Orchestrator.NewMessageExecutes` | packages/sdk/src/orchestrator.ts:1104-1632 | in any run from an empty cache, a delivery whose message has no live answer executes exactly when everything on its way permits |
| `Orchestrator.ExecutedReply` | packages/sdk/src/orchestrator.ts:1480-1632 | a permitted execution is answered and recorded with the executor's data, the request id and the next sequence number; when recording or building fails, with the error, kept unless it is an invalid message |
| `Orchestrator.RefusedReply` | packages/sdk/src/orchestrator.ts:1258-1366 | a refusal by the token, for want of a tracker or by a limit is answered with its reason and kept, or answered as internal error and not kept when it could not be recorded |
| `Orchestrator.DeniedReply` | packages/sdk/src/orchestrator.ts:1434-1474 | a policy denial is answered with its reason and kept |
| `Orchestrator.FailedReply` | packages/sdk/src/orchestrator.ts:1532-1632 | an error before the executor has succeeded is told and not kept |
| `Orchestrator.UnverifiedReply` | packages/sdk/src/orchestrator.ts:1168-1190 | an envelope that does not verify is told so, neither looked up nor executed |
| `Orchestrator.UncommittedAreCancelled` | packages/sdk/src/orchestrator.ts:1532-1556 | if the executor did not succeed, every success-only reservation of the delivery has had a cancel attempted after it |
| `Orchestrator.CommittedNeverCancelled` | packages/sdk/src/orchestrator.ts:1532-1556 | over a whole run, no reservation of a delivery whose executor succeeded is ever cancelled, and none of a metric that counts every attempt |
| `Orchestrator.OpenAreCommitted` | packages/sdk/src/orchestrator.ts:1104-1632 | a reservation left open at the end of a run belongs to a delivery whose executor succeeded |
| `Orchestrator.EntryStays` | packages/sdk/src/orchestrator.ts:652-676 | a recorded answer is held by every later store within its own time to live, across deliveries with other keys and lazy eviction |
| `Orchestrator.AtMostOnce` | packages/sdk/src/orchestrator.ts:1022-1094 | within the time to live of its answer, after a well-behaved success no delivery with the same key executes, and each gets the same header and body again |
| `Orchestrator.RedeliveryExecutesAgain` | packages/sdk/src/orchestrator.ts:1605-1630 | in any run, the next delivery of a key that would execute executes a second time if and only if the first, a cache miss, failed after success with INVALID_MESSAGE or could not build its error response |
| `Orchestrator.CachedErrorsCommitted` | packages/sdk/src/orchestrator.ts:1588-1632 | every INTERNAL_ERROR in the cache comes from a run whose executor succeeded |
| `ResponseCache.InMemoryResponseIdempotencyCache.Check` | packages/sdk/src/orchestrator.ts:652-661 | a live entry is returned, an expired one is deleted and missed |
| `ResponseCache.InMemoryResponseIdempotencyCache.Record` | packages/sdk/src/orchestrator.ts:663-676 | exactly the expired entries are evicted by the scan, then the entry is stored |
| `ResponseCache.KeyInjective` | packages/sdk/src/orchestrator.ts:678-681 | for separator-free DIDs and session ids the text key is injective, except that no session and an empty session id coincide |
| `Quota.QuotaHolds` | packages/sdk/src/orchestrator.ts:2140-2206 | under any interleaving with non-negative amounts, right after every acceptance the live reservations of accepted requests are within the limit accepted under |
| `Quota.UniformQuotaHolds` | packages/sdk/src/orchestrator.ts:2140-2206 | under one limit the bound holds at every moment of every run |
| `Quota.NegativeAmountBreaks` | packages/sdk/src/orchestrator.ts:2120-2137 | for every negative amount, which the type check lets through, and every legal limit there is a run that breaks the bound |
| `Quota.QuotaIsExact` | packages/sdk/src/orchestrator.ts:2120-2206 | a lower bound on amounts secures the quota in every run under legal limits if and only if it is at least zero |
| `Quota.LargerLimitLater` | packages/sdk/src/orchestrator.ts:2140-2206 | the bound is about the moment of acceptance: under every larger limit a later reservation is accepted that takes the total past the smaller one |
| `Migration.FinalIgnoresLayout` | scripts/migrations/028-hcc-v0.2-backward-compatibility.ts:103-243 | the final table is a function of the initial rows |
| `Migration.ProgressKeepsFinal` | scripts/migrations/028-hcc-v0.2-backward-compatibility.ts:268-322 | partial progress does not change the final table |
| `Migration.FinalIsLinked` | scripts/migrations/028-hcc-v0.2-backward-compatibility.ts:504-558 | in the final table every previous hash is the predecessor's hash, and sixty-four zeros at position zero |
| `Migration.FinalMeaning` | scripts/migrations/028-hcc-v0.2-backward-compatibility.ts:402-452 | the final table is the only one in which every row that was pending has the digest of payload and chain identity, that identity, version 2 and the link back with all else kept, and every other row is as it was |
| `Migration.UpdateRowsMeaning` | scripts/migrations/028-hcc-v0.2-backward-compatibility.ts:402-452 | a batch writes into each of its rows the digest of payload and identity, that identity, version 2, and as previous hash the new digest of the row before or the anchor |
| `Migration.CommittedKeepsShape` | scripts/migrations/028-hcc-v0.2-backward-compatibility.ts:375-494 | committing the next stretch of a chain keeps every chain a linked migrated prefix followed by pending rows |
| `Migration.BatchIsIdempotent` | scripts/migrations/028-hcc-v0.2-backward-compatibility.ts:332-356 | running a batch again after its commit went through unacknowledged gives the same table |
| `MigrationRun.PageIsStretch` | scripts/migrations/028-hcc-v0.2-backward-compatibility.ts:282-322 | the keyset page is exactly the next stretch of the chain, short only at its end |
| `MigrationRun.CursorOrder` | scripts/migrations/028-hcc-v0.2-backward-compatibility.ts:282-322 | the cursor orders rows strictly by position and then id |
| `MigrationRun.Database.SelectNextBatch` | scripts/migrations/028-hcc-v0.2-backward-compatibility.ts:282-322 | the first n pending rows of the chain past the cursor, in (position, id) order |
| `MigrationRun.Database.FetchPrevCommittedHash` | scripts/migrations/028-hcc-v0.2-backward-compatibility.ts:510-558 | zeros at position zero when positions arrive as numbers; otherwise the hash of a migrated predecessor or one of the two failures, so that position zero read as text finds nothing |
| `MigrationRun.TextHidesStart` | scripts/migrations/028-hcc-v0.2-backward-compatibility.ts:518-548 | the input that separates the two readings: a table of one pending first row, whose anchor is the zeros for a number and missing for text |
| `MigrationRun.Database.ProcessBatch` | scripts/migrations/028-hcc-v0.2-backward-compatibility.ts:375-494 | all updates of the batch or none, by what became of the transaction; each row linked to the new hash of the one before |
| `MigrationRun.Database.ProcessBatchWithRetry` | scripts/migrations/028-hcc-v0.2-backward-compatibility.ts:332-356 | whatever the attempts meet, the table is as before or has exactly this stretch migrated; success means migrated; undisturbed, the batch succeeds if and only if positions arrive as numbers or it does not start at position zero |
| `MigrationRun.Database.ListChains` | scripts/migrations/028-hcc-v0.2-backward-compatibility.ts:256-266 | exactly the chains with pending rows, each once |
| `MigrationRun.Database.MigrateChain` | scripts/migrations/028-hcc-v0.2-backward-compatibility.ts:153-206 | touches only its chain and keeps the shape at every commit; undisturbed, it finishes the chain if and only if positions arrive as numbers or the first row is not pending; read as text, first rows are never changed |
| `MigrationRun.Database.Migrate` | scripts/migrations/028-hcc-v0.2-backward-compatibility.ts:103-243 | every commit keeps the shape; completion means the final table, every pending row rehashed and linked; an undisturbed run completes if and only if positions arrive as numbers or no chain has a pending first row |
| `MigrationRun.Database.MigrateWithRestarts` | scripts/migrations/028-hcc-v0.2-backward-compatibility.ts:103-243 | with crashes, lost acknowledgements, retries and restarts under any batch sizes, completion yields the one final table of the original rows; read as text, no sequence of runs completes a table with a pending first row, and in every other case one undisturbed run is enough |
| `Quorum.SelectByQuorum` | packages/identity/src/federated-resolver.ts:1051-1167 | from three targets on, nothing unless one version reaches the threshold and all its holders agree, then the first holder of that version; below three targets, the fallback |
| `Quorum.SelectHighestVersionFallback` | packages/identity/src/federated-resolver.ts:1174-1247 | the highest version if its holders agree, otherwise nothing |
| `Quorum.AtMostOneQualifies` | packages/identity/src/federated-resolver.ts:1036-1038 | at most one version reaches the threshold |
| `Quorum.QualifiesIsMajority` | packages/identity/src/federated-resolver.ts:1036-1038 | reaching the threshold is being held by a strict majority |
| `Quorum.ElectionMeaning` | packages/identity/src/federated-resolver.ts:1051-1167 | from three targets on, a version held by an agreeing strict majority is elected with the document of its first holder, and otherwise there is no result |
| `Quorum.FallbackMeaning` | packages/identity/src/federated-resolver.ts:1174-1247 | below three targets the highest version is elected exactly when its holders agree; no candidate is an error |
| `Quorum.ElectedByMajority` | packages/identity/src/federated-resolver.ts:1051-1167 | an elected version is held by a strict majority who all agree on its content |
| `Quorum.OrderIndependent` | packages/identity/src/federated-resolver.ts:1051-1247 | the outcome is the same for every arrival order, with quorum and with fallback |
| `Resolver.FederatedResolver.Handle` | packages/identity/src/federated-resolver.ts:411-557 | each atomic step between awaits has exactly the effect and answer that the run theorems speak about, joining a promise that has already resolved included, and touches no other DID |
| `Resolver.FanOutAnswers` | packages/identity/src/federated-resolver.ts:563-763 | from any reachable quiet state, a fan-out answers with the elected document, caches it for its time to live and persists its version exactly when that is not below the persisted one; otherwise it answers null and keeps nothing |
| `Resolver.InvalidationWins` | packages/identity/src/federated-resolver.ts:744-754 | an invalidation at any moment before the watermark is read makes the answer null |
| `Resolver.CacheAnswers` | packages/identity/src/federated-resolver.ts:411-443 | until it expires a cached document is answered and nothing started; after that the next caller starts a fan-out, or gets null when too few nodes are healthy |
| `Resolver.CallersJoin` | packages/identity/src/federated-resolver.ts:411-443 | callers wait for the fan-out under way or get the value it settled on |
| `Resolver.FailedElection` | packages/identity/src/federated-resolver.ts:563-726 | a failed election answers null and leaves the watermark |
| `Resolver.StepInv` | packages/identity/src/federated-resolver.ts:516-557 | every step of every interleaving keeps the invariant, the watermark and the order of answers |
| `Resolver.AtMostOneFanOut` | packages/identity/src/federated-resolver.ts:411-443 | at most one fan-out per DID is active |
| `Resolver.WatermarkNeverDecreases` | packages/identity/src/federated-resolver.ts:727-763 | the persisted watermark never decreases |
| `Resolver.VersionsNeverDecrease` | packages/identity/src/federated-resolver.ts:727-763 | versions returned, from the cache, by a fan-out or by joining a resolved promise, never decrease |
| `Resolver.CacheIsNeverStale` | packages/identity/src/federated-resolver.ts:445-510 | the cache never holds a document whose fan-out began before the latest invalidation |
| `RollingWindow.LatencyTracker.Record` | packages/identity/src/federated-resolver-metrics.ts:147-158 | the ring of reused buckets goes on representing the time-stamped log |
| `RollingWindow.LatencyTracker.Snapshot` | packages/identity/src/federated-resolver-metrics.ts:217-237 | the merged digest is exactly the visible samples of the log |
| `RollingWindow.SnapshotBounds` | packages/identity/src/federated-resolver-metrics.ts:200-237 | a snapshot holds every sample of age at most the window less one bucket and none of age the window plus one bucket or more |
| `RollingWindow.VisibleMeaning` | packages/identity/src/federated-resolver-metrics.ts:217-237 | a snapshot shows exactly the samples whose bucket ends after the start of the window and was not taken over since |
| `HashChain.Chain.Append` | packages/crypto/src/hash-chain.ts:109-131 | the head becomes the hash of the record and the length grows by one, only if the record names the current head; an error changes nothing |
| `HashChain.Chain.Verify` | packages/crypto/src/hash-chain.ts:133-159 | valid with the number of records, or broken at the first record that is not linked (through VerifyMeaning) |
| `HashChain.VerifyMeaning` | packages/crypto/src/hash-chain.ts:133-159 | valid exactly when every record is linked, otherwise broken exactly at the first that is not |
| `HashChain.AppendThenVerify` | packages/crypto/src/hash-chain.ts:109-159 | any list appended in order whose first record carries an explicit null verifies, and the head is the last computed hash |
| `HashChain.AppendMeaning` | packages/crypto/src/hash-chain.ts:109-131 | a record is appended exactly when it names the head: null or nothing on an empty chain, the very text of the head on any other |
| `HashChain.RecordHashMeaning` | packages/crypto/src/hash-chain.ts:88-104 | what is hashed is the text of the previous hash followed by the canonical record |
| `HashChain.ReadingMeaning` | packages/crypto/src/hash-chain.ts:10-55 | a prevHash is read as the 32 bytes its hex or base64url text stands for, none for no value, and an error for everything else |
| `HashChain.HeadBindsHistory` | packages/crypto/src/hash-chain.ts:109-131 | two equally long lists appended to the same head are equal, or a collision is exhibited |
| `HashChain.AbsentPrevHashBreaks` | packages/crypto/src/hash-chain.ts:58-86 | with the first prevHash absent instead, a list of one record verifies, and every longer one is reported broken at index 1 or yields a hash collision |
| `HashChain.ReencodingKeepsVerdict` | packages/crypto/src/hash-chain.ts:10-55 | re-encoding any later prevHash from hex to base64url keeps the verdict |
| `HashChain.TamperEvident` | packages/crypto/src/hash-chain.ts:133-159 | changing the content of record i of a valid chain, not the last, is reported broken exactly at i + 1, or a collision is exhibited |
| `Merkle.GenerateProof` | packages/crypto/src/hash-chain.ts:173-236 | for every index of every non-empty list the proof carries the leaf of that record, siblings that fold to the root and the root of the whole list; an index outside the list and a record without a hash are errors |
| `Merkle.ProveLeaf` | packages/crypto/src/hash-chain.ts:173-236 | folding the siblings gives the root, the root is the recursive odd-duplicating tree hash, and there are Height siblings |
| `Merkle.TreeHashMeaning` | packages/crypto/src/hash-chain.ts:202-236 | a pair is hashed as the text of its left node followed by that of its right one, the last node of an odd layer with itself, layer by layer up to a single node |
| `Merkle.ClimbMeaning` | packages/crypto/src/hash-chain.ts:202-230 | at every level the proof has the other node of the pair, marked left or right by the place |
| `Merkle.BuildLayer` | packages/crypto/src/hash-chain.ts:202-230 | the next layer has the joins of all pairs, the last node paired with itself when the count is odd, and the sibling recorded is that of the target on its proper side |
| `Merkle.HeightIsLogarithm` | packages/crypto/src/hash-chain.ts:202-230 | Height is the logarithm to base two rounded up |
| `Merkle.RootBindsLeaves` | packages/crypto/src/hash-chain.ts:173-236 | equal roots of equally long digest lists have equal leaves, or a collision is exhibited |
| `Merkle.RootBindsRecords` | packages/crypto/src/hash-chain.ts:173-236 | equal roots of equally long record lists mean equal hashed bytes record by record, or a collision is exhibited |
| `SessionRegistry.ReachableStates` | packages/communication/src/session-registry.ts:91-363 | in every reachable state a previous handle, the PENDING_REKEY state and exactly one timer come together, and every handle ever created is reachable or zeroized |
| `SessionRegistry.IdentityIsFixed` | packages/communication/src/session-registry.ts:199-280 | role and token id never change across the generations of a session |
| `SessionRegistry.CreateEffect` | packages/communication/src/session-registry.ts:91-121 | a new session has one fresh active handle with what was asked for; other sessions are untouched |
| `SessionRegistry.SwapEffect` | packages/communication/src/session-registry.ts:199-235 | the window opens on a fresh handle of the new generation with the old identity, the old handle live beside it under a new timer |
| `SessionRegistry.SwapChainEffect` | packages/communication/src/session-registry.ts:243-280 | in chain mode the generation is the next one and its key derived from the current key and generation |
| `SessionRegistry.FireEffect` | packages/communication/src/session-registry.ts:347-363 | when its timer fires the old generation is erased and the new one active and alone |
| `SessionRegistry.CloseEffect` | packages/communication/src/session-registry.ts:293-312 | a closed session is forgotten with its timer, and no handle of it is left unerased |
| `SessionRegistry.Registry.CreateSession` | packages/communication/src/session-registry.ts:91-121 | a new entry with one active handle, or an error and no change for a live session; the invariant is kept |
| `SessionRegistry.Registry.LookupHandle` | packages/communication/src/session-registry.ts:135-141 | no lookup returns a zeroized handle |
| `SessionRegistry.Registry.LookupHandleForDecrypt` | packages/communication/src/session-registry.ts:160-182 | returns a live handle of the session with that key id if and only if there is one, the current generation before the previous one |
| `SessionRegistry.Registry.SwapForDualKey` | packages/communication/src/session-registry.ts:199-235 | opens the dual-key window with a new current handle and a timer, and does nothing while a window is open |
| `SessionRegistry.Registry.SwapForDualKeyChainMode` | packages/communication/src/session-registry.ts:243-280 | the same with the chain-derived keys |
| `SessionRegistry.Registry.CloseSession` | packages/communication/src/session-registry.ts:293-312 | erases both generations and cancels the timer |
| `SessionRegistry.Registry.FireTimer` | packages/communication/src/session-registry.ts:347-363 | ends the window of its session, or does nothing |
| `Replay.ExtractSequenceNumber` | packages/communication/src/envelope.ts:63-96 | the byte loop computes the big-endian number and the direction byte of either encoding, or refuses |
| `Replay.NonceRoundTrip` | packages/crypto/src/encryption.ts:239-261 | extraction inverts nonce building for every sequence number below 2^64 |
| `Replay.NonceLayout` | packages/crypto/src/encryption.ts:239-261 | direction byte 1 or 2, the sequence number with its least significant byte last, three salt bytes |
| `Replay.NonceWrapsAround` | packages/crypto/src/encryption.ts:239-261 | sequence numbers 2^64 apart share a nonce |
| `Replay.ReplayKeyInjective` | packages/communication/src/envelope.ts:51-57 | for colon-free key ids the text key is injective |
| `Replay.ReplayKeyCollides` | packages/communication/src/envelope.ts:51-57 | for every session, direction and key id there is a key id with a colon that collides under another session |
| `Replay.ReplayKeyMeaning` | packages/communication/src/envelope.ts:51-57 | exactly which triples share a key: equal ones, and those where the longer key id contains the shorter one, its nonce byte and the end of its session id |
| `Replay.ReplayGuard.DecryptEnvelopeBody` | packages/communication/src/envelope.ts:561-634 | a failed call leaves the tracker unchanged, an accepted one raises it |
| `Replay.AnswerMeaning` | packages/communication/src/envelope.ts:561-634 | a call that is no replay is answered by routing, decryption and the token, in this order, with the plaintext or the error of the first that fails |
| `Replay.AuthenticMeaning` | packages/communication/src/envelope.ts:561-634 | authentic means readable, routed, decrypted and naming the token of the handle |
| `Replay.ReplayMeaning` | packages/communication/src/envelope.ts:561-634 | a replay is reported exactly when a number at least as high was accepted before in the same stream |
| `Replay.AcceptanceMeaning` | packages/communication/src/envelope.ts:561-634 | a call is accepted exactly when it is authentic and its number exceeds every number accepted before in its stream |
| `Replay.AcceptedIncrease` | packages/communication/src/envelope.ts:561-634 | accepted numbers of a stream strictly increase over any run |
| `Replay.InOrderDelivery` | packages/communication/src/envelope.ts:561-634 | in-order authentic messages are accepted, and none twice |
| `RateLimiter.Limiter.RateLimit` | packages/managed-service-runtime/src/rate-limiter.ts:101-144 | refill, admission or Retry-After and eviction beyond the cap, exactly as in the runs the bounds are proved about |
| `RateLimiter.Limiter.FindOldest` | packages/managed-service-runtime/src/rate-limiter.ts:194-206 | the scan finds the least recently accessed bucket, first in insertion order |
| `RateLimiter.AdmissionBound` | packages/managed-service-runtime/src/rate-limiter.ts:208-222 | a key not evicted during [s, t] is admitted at most max + (t - s) * max / windowMs times |
| `RateLimiter.GainIsRate` | packages/managed-service-runtime/src/rate-limiter.ts:208-222 | what is earned is elapsed * max / windowMs |
| `RateLimiter.RejectedOnlyWhenSpent` | packages/managed-service-runtime/src/rate-limiter.ts:101-144 | the bound is tight: in every run, evictions included, a rejected request ends an interval in which the key was admitted so often that one more would break max + elapsed * max / windowMs |
| `RateLimiter.CapIsKept` | packages/managed-service-runtime/src/rate-limiter.ts:168-206 | the map never outgrows its cap, nothing is evicted before it is full, and no other bucket changes |
| `RateLimiter.OldestIsFirst` | packages/managed-service-runtime/src/rate-limiter.ts:194-206 | among the least recently used buckets the first inserted is evicted |
| `RateLimiter.RetryAfterIsLeast` | packages/managed-service-runtime/src/rate-limiter.ts:224-239 | one second less than Retry-After would not do |
| `RateLimiter.CapIsInvisible` | packages/managed-service-runtime/src/rate-limiter.ts:168-206 | when every evicted bucket was idle for the window, the capped map decides like an unbounded one |
| `RateLimiter.RetryAfterGuarantee` | packages/managed-service-runtime/src/rate-limiter.ts:224-239 | after a rejection, waiting Retry-After seconds with no other request on the key guarantees admission if and only if max is at least one |
| `Encoding.FromHex` | packages/crypto/src/encoding.ts:18-41 | the bytes of an even-length hex text in either case, the empty text included, and the format error for every other text |
| `Encoding.HexRoundTrip` | packages/crypto/src/encoding.ts:12-41 | decoding inverts encoding for every byte string |
| `Encoding.HexTextRoundTrip` | packages/crypto/src/encoding.ts:12-41 | encoding inverts decoding up to case |
| `Encoding.ToBase64Url` | packages/crypto/src/encoding.ts:47-72 | the unpadded URL-safe text of section 5 of RFC 4648, for every length |
| `Encoding.FromBase64Url` | packages/crypto/src/encoding.ts:78-132 | padding is stripped, any character outside the alphabet and any impossible length is an error, everything else decodes group by group |
| `Encoding.DecodingMeaning` | packages/crypto/src/encoding.ts:78-132 | a text decodes exactly when it is alphabet characters, not one more than a multiple of four, and at most two padding characters, which change nothing |
| `Encoding.SextetAlphabet` | packages/crypto/src/encoding.ts:6-7 | the alphabet in its order |
| `Encoding.KnownBase64Url` | packages/crypto/src/encoding.ts:47-72 | the texts of section 10 of RFC 4648 for f, fo and foo |
| `Encoding.KnownUrlSafe` | packages/crypto/src/encoding.ts:6-7 | minus and underscore stand for 62 and 63 |
| `Encoding.KnownHex` | packages/crypto/src/encoding.ts:12-16 | the high half of a byte comes first, in small letters |
| `Encoding.Base64UrlRoundTrip` | packages/crypto/src/encoding.ts:47-132 | decoding inverts encoding for every byte string |
| `Encoding.DetectsHex` | packages/crypto/src/encoding.ts:141-152 | hex output is recognised as hex |
| `Encoding.DetectsBase64Url` | packages/crypto/src/encoding.ts:141-152 | base64url output is recognised whenever the length is two modulo three |
| `Encoding.DetectionIsAmbiguous` | packages/crypto/src/encoding.ts:141-152 | for every other positive length the text of zero bytes is taken for hex and decodes to other bytes |
| `Encoding.DetectionIsExact` | packages/crypto/src/encoding.ts:141-152 | all texts of a byte count are recognised if and only if it leaves remainder two modulo three |
| `Positional.MultiplyAdd` | packages/identity/src/did-key.ts:15-28 | one input digit: the carry loop multiplies the number by the other radix and adds, digits in range, no leading zero |
| `Positional.CarryLoop` | packages/identity/src/did-key.ts:16-22 | the carry stays within 255 and 57 |
| `Positional.TranscodeRoundTrip` | packages/identity/src/did-key.ts:8-81 | changing radix there and back is the identity for digit strings with a non-zero digit |
| `DidKey.EncodeBase58` | packages/identity/src/did-key.ts:8-44 | the positional value of the bytes in radix 58 with one leading 1 per leading zero byte |
| `DidKey.DecodeBase58` | packages/identity/src/did-key.ts:46-81 | the positional value of the text in radix 256 with one leading zero byte per leading 1, and an error for a character outside the alphabet |
| `DidKey.AlphabetMeaning` | packages/identity/src/did-key.ts:1-6 | every digit and letter except 0, O, I and l, in the order of their codes |
| `DidKey.KnownBase58` | packages/identity/src/did-key.ts:8-44 | the texts of 97 with and without a leading zero byte |
| `DidKey.Base58RoundTrip` | packages/identity/src/did-key.ts:8-81 | decoding inverts encoding if and only if the bytes are empty or have a non-zero byte |
| `DidKey.Base58TextRoundTrip` | packages/identity/src/did-key.ts:8-81 | encoding inverts decoding if and only if the text is empty or has a character other than 1 |
| `DidKey.DidKeyRoundTrip` | packages/identity/src/did-key.ts:83-114 | did:key decoding inverts encoding for every 32-byte key and refuses every other length |
| `DidKey.PayloadMeaning` | packages/identity/src/did-key.ts:94-114 | an identifier is read as a key exactly when it is a z followed by base58 of ed01 and 32 bytes |

## Left out

- Network, DNS, TLS pinning, HTTP handlers, the command line and metric exporters: input and output over other libraries.
- The insides of SHA-256, Ed25519, HKDF, AES-GCM, canonical JSON, t-digest and the JSON schemas: parameters or multisets here.
- The migration's dry run, progress counters and log lines, and the order in which it lists chains (any order is covered); no other writer touches the table during a run; positions from 2^53 on, which the driver's text would lose on subtraction.
- `encryptEnvelopeBody` and `computeKeyId` beyond the nonce layout, and session state changes made outside the registry.
- Node health, timeouts and retries inside a fan-out, `close`, and a failing or shared watermark store.
- Amounts that are NaN or infinite on the sender's side of the quota.
- Human approval in the policy engine, which the orchestrator never requests.
- Caches other than the in-memory one, and a cache write that fails or times out.
- Reservations that a tracker may have made although its call threw, and a tracker's own expiry of reservations beyond their release.
- Times of day that parse to a fraction of a minute, and the rendering of midnight as 24:00 by some locales.
- Running totals that change while the scopes of one request are evaluated one after the other.
- Subscription tiers of the rate limiter other than the default one.
- The DID registry with its optimistic locking, key rotation proofs, resolver freshness proofs and the revocation list
  with its expiring cache: components of their own that share no state with the parts modelled here.
- Replay.ExtractSequenceNumber: the lenient decoding of base64url nonces by the platform is a parameter.
- Quota.QuotaHolds: assumes that reservation ids are not reused, which the orchestrator draws afresh for each delivery.
