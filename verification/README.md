# Verified model of the CreditIQ decision platform

CreditIQ scores loan applicants, screens them for fraud, decides and services loans, and governs the models
that do the scoring. This project models the parts of it whose correctness spans several operations or whole
runs, and proves what they keep. `dafny verify dfyconfig.toml` checks everything.

## What is modelled

| component | files |
|---|---|
| Model registry: records, keys and lifecycle graph; the four atomic operations as functions; the registry object proved against them; invariants and histories over every run; replay of the audit log; the crash behaviour of the write path | `Domain`, `Registry`, `FileRegistry`, `RegistryInvariants`, `RegistryHistory`, `AuditReplay`, `RegistryStorage` |
| Promotion policy, and the promotion and rollback services as threads that interleave with other registry calls, and as uninterrupted calls | `Promotion`, `Services`, `ServiceCalls`, `StaleReads` |
| Version lineage: a parent relation validated once and then walked | `Lineage` |
| Feature engineering: generators run in passes until no pending one has its inputs | `FeaturePipeline`, `StandardFeatures` |
| Rate limiting over an expiring counter | `RateLimit` |
| Arrears and portfolio at risk over scheduled installments | `Delinquency` |
| Configuration: deep merge of trees, and environment overrides | `ConfigMerge` |
| Inference monitoring: two stores of one bounded event window, and its aggregation | `Monitoring` |
| Credit business rules with priorities and early stop | `RuleEngine` |
| Fraud score, decision policy, decision engine, credit score | `Bands`, `FraudScoring`, `Decision` |
| The browser client's single-flight token refresh | `ApiClient` |
| The loan workflow graph under tenant settings, and transitions of concurrent sessions | `LoanWorkflow`, `LoanConcurrency` |

`Wrappers`, `Sequences` and `Rounding` hold outcomes, permutations and sorting, and rounding. Methods and classes
stand where the program updates state or loops; each is proved against a function or a predicate, and the results about whole runs are lemmas about those. Failures are values of `Result`.

## Results that narrow a promise

* The audit log names a model by name and version only. Replay is faithful if and only if that tells the
  records apart (`AuditReplay.StepIsLoggedExactly`, `AuditReplay.RunIsLoggedExactly`); for two
  models of one name and version no other replay can do better (`AuditReplay.LogsAgreeExactly`).
* Identity keys are concatenations, and determine the identity if and only if its parts hold no colon
  (`Domain.KeyIsUnambiguous`); references have a like
  condition (`Domain.RefIsUnambiguous`). The registry invariant is stated on keys and references as texts and
  needs neither.
* A rollback request names the version to take out, but the check and the act are two registry calls
  (`Services.RollbackMayReplaceAnotherVersion`); it takes out that version exactly when no call in between
  takes it out for good (`StaleReads.RollbackTakesOutTheNamedExactly`). A promotion stands in the same relation
  to the incumbent it was compared with (`StaleReads.PromotionReplacesTheComparedExactly`).
* A refresh, a request or download that may start one, and a login under way outlive a logout and store their
  token afterwards (`ApiClient.LogoutIsFinalExactly`).
* A loan transition reads the status without a lock, so two sessions can both decide one review
  (`LoanConcurrency.ConcurrentDecisionsBothRecord`); exactly when the history stays one history is
  `LoanConcurrency.HistoryIsChainedExactly`. The results on `LoanWorkflow` runs are about such histories.
* The policy's documentation says fraud can only make a decision more conservative; that holds
  (`Decision.FraudOnlyTightens`), yet worse credit can give a milder outcome, with the shipped
  policy too; exactly when is `Decision.CreditMonotoneExactly`. Approval is safe exactly under a condition on
  the fallback actions (`Decision.ApprovalIsSafeExactly`).
* The lineage walk reads an empty parent name as no parent while the validation and `children` do not
  (`Lineage.ChildrenInvertFirstAncestor`).
* Environment overrides are applied in the order the process environment lists them, and that order matters
  exactly when one path is a prefix of another (`ConfigMerge.OverrideOrderMattersExactly`).
* The registry calls itself durable. A replaced file is complete, but the directory is not synced after the
  replace, so a power loss may undo it: `RegistryStorage.CommittedMayBeLost` loses an acknowledged registration,
  and `RegistryStorage.DurableExactly` says that exactly what was committed before the last recovery is durable.

## Model

| member | source | states |
|---|---|---|
| `RegistryInvariants.RunKeepsInv` | ai-engine/creditiq_ai/model_operations/registry/file_registry.py:45-226 | In every run of register, transition, promote and rollback calls, any of which may raise, references stay distinct, each identity key has at most one production version, and every record is past CREATED with trusted artifacts |
| `RegistryInvariants.NextKeepsInv` | ai-engine/creditiq_ai/model_operations/registry/file_registry.py:45-226 | Each single operation keeps that invariant from any state that has it |
| `RegistryInvariants.TransitionKeepsOneProduction` | ai-engine/creditiq_ai/model_operations/registry/file_registry.py:83-110 | A plain transition into production cannot create a second production version of a key, because of the search for another one |
| `RegistryInvariants.StepFrame` | ai-engine/creditiq_ai/model_operations/registry/file_registry.py:45-226 | Records stay in place and move only along the lifecycle graph, at most one record is added, in REGISTERED; the log grows by one event exactly when the call succeeds, and a failing call changes nothing |
| `RegistryInvariants.SearchesAreUnique` | ai-engine/creditiq_ai/model_operations/registry/file_registry.py:194-204 | No search finds two records, so the multiple-production branch of a promotion is unreachable |
| `RegistryInvariants.ProductionIsExact` | ai-engine/creditiq_ai/model_operations/registry/file_registry.py:112-122 | production() answers with a record exactly when it is the stored production record of the key, and fails exactly when there is none |
| `RegistryInvariants.RegisterSucceedsExactly` | ai-engine/creditiq_ai/model_operations/registry/file_registry.py:45-53 | A registration succeeds if and only if every artifact has a checksum, there is at least one, and the reference is new |
| `RegistryInvariants.RegisterRefusesDuplicatesExactly` | ai-engine/creditiq_ai/model_operations/registry/file_registry.py:50-53 | For a model whose reference names one version, registration is refused as a conflict if and only if that version of that identity is registered |
| `RegistryInvariants.ChecksumsAreDemanded` | ai-engine/creditiq_ai/model_operations/registry/file_registry.py:233-245 | A model without artifacts, or with one whose checksum is missing or empty, is refused for that reason, and no other is |
| `RegistryInvariants.ErrorsAreExact` | ai-engine/creditiq_ai/model_operations/registry/file_registry.py:67-204 | Which error each refused operation raises: unknown reference, illegal move, taken production slot, no champion, impossible rollback |
| `RegistryInvariants.TwoInProductionIsRefused` | ai-engine/creditiq_ai/model_operations/registry/file_registry.py:133-204 | A stored document with two production records of one key is not repaired by guessing: no production version is reported, and promotion and rollback of the key are refused |
| `RegistryInvariants.TransitionSucceedsExactly` | ai-engine/creditiq_ai/model_operations/registry/file_registry.py:92-97 | A transition succeeds if and only if the reference names a record that may legally move to the target and, for production, the key has no production version |
| `RegistryInvariants.PromoteSucceedsExactly` | ai-engine/creditiq_ai/model_operations/registry/file_registry.py:177-204 | A promotion succeeds if and only if the reference names a registered champion |
| `RegistryInvariants.RollbackSucceedsExactly` | ai-engine/creditiq_ai/model_operations/registry/file_registry.py:133-159 | A rollback succeeds if and only if the key has a production version and the target version is a champion of the key |
| `RegistryInvariants.PromoteDecidesProduction` | ai-engine/creditiq_ai/model_operations/registry/file_registry.py:205-226 | After a promotion the key is served by the promoted record and every other key as before |
| `RegistryInvariants.RollbackDecidesProduction` | ai-engine/creditiq_ai/model_operations/registry/file_registry.py:151-175 | After a rollback the key is served by the requested version and every other key as before |
| `RegistryInvariants.RollbackUndoesPromotion` | ai-engine/creditiq_ai/model_operations/registry/file_registry.py:124-226 | Promoting over an incumbent and rolling back to it always succeeds and restores the whole record list, every field and the order, with two more audit events |
| `RegistryInvariants.PromotionUndoesRollback` | ai-engine/creditiq_ai/model_operations/registry/file_registry.py:124-226 | Promoting the version a rollback took out always succeeds and restores the whole record list |
| `RegistryHistory.RecordsPersist` | ai-engine/creditiq_ai/model_operations/registry/file_registry.py:45-226 | Between any two points of a run no record is removed or moved, and only its stage changes |
| `RegistryHistory.TerminalIsFinal` | ai-engine/creditiq_ai/model_operations/domain.py:88-91 | A record that is archived, rejected or retired is never changed again by any later operation |
| `RegistryHistory.LowerRankWasVisited` | ai-engine/creditiq_ai/model_operations/domain.py:56-91 | Before any visit to a stage on the road to production the same record visited the stage one rank below |
| `RegistryHistory.RoadIsWalkedInOrder` | ai-engine/creditiq_ai/model_operations/domain.py:56-91 | A record at rank r has first visits to ranks 0 to r at strictly increasing moments |
| `RegistryHistory.ProductionWasEarned` | ai-engine/creditiq_ai/model_operations/registry/file_registry.py:45-226 | Any production version was first REGISTERED, then VALIDATED, STAGING, CHALLENGER, CHAMPION, in that order, before it was first in production |
| `RegistryHistory.ProductionIsReachable` | ai-engine/creditiq_ai/model_operations/registry/file_registry.py:45-226 | Every trusted model whose reference is new in an empty registry has a run, one registration, four transitions and a promotion, that brings it into production |
| `Domain.TransitionsClimbOneRank` | ai-engine/creditiq_ai/model_operations/lifecycle/state_machine.py:30-43 | A legal transition never leaves a terminal stage, never climbs more than one rank, and reaches REGISTERED only from CREATED |
| `Domain.GraphIsExact` | ai-engine/creditiq_ai/model_operations/domain.py:56-91 | A move is legal if and only if it registers a created model, climbs one rank, steps back one from challenger on, archives a ranked stage, rejects one up to staging, or retires production |
| `Domain.KeyIsUnambiguous` | ai-engine/creditiq_ai/model_operations/domain.py:104-106 | A key string determines its identity if and only if name and environment hold no colon |
| `Domain.KeyCollision` | ai-engine/creditiq_ai/model_operations/domain.py:104-106 | An identity with a colon in a part shares its key with a different identity, which is constructed |
| `Domain.RefIsUnambiguous` | ai-engine/creditiq_ai/model_operations/domain.py:148-150 | A reference string determines identity and version if and only if name and environment hold no colon and environment and version no at sign |
| `Domain.RefCollision` | ai-engine/creditiq_ai/model_operations/domain.py:148-150 | An environment or version with an at sign shares its reference with another identity and version, which are constructed |
| `AuditReplay.ReplayRebuildsStages` | ai-engine/creditiq_ai/model_operations/registry/file_registry.py:307-329 | In every run whose records the log can tell apart, replaying the log from empty gives exactly the stage of every registered version, although a rollback event records the outgoing model's stage as previous state |
| `AuditReplay.StepRebuilds` | ai-engine/creditiq_ai/model_operations/registry/file_registry.py:160-175 | Each operation's event carries a faithful replay over to the new state |
| `AuditReplay.EventDescribesStep` | ai-engine/creditiq_ai/model_operations/registry/file_registry.py:307-329 | The event of each operation names the changed record, the stage it had and the stage it has, and the version it replaced |
| `AuditReplay.TransitionIsLoggedExactly` | ai-engine/creditiq_ai/model_operations/registry/file_registry.py:98-110 | A transition stays faithfully logged if and only if no other record has the moved record's name and version |
| `AuditReplay.RegistrationIsLoggedExactly` | ai-engine/creditiq_ai/model_operations/registry/file_registry.py:54-65 | A registration stays faithfully logged if and only if every record of that name and version is still at registered |
| `AuditReplay.FirstPromotionIsLoggedExactly` | ai-engine/creditiq_ai/model_operations/registry/file_registry.py:205-226 | A promotion without an incumbent stays faithfully logged if and only if no other record has the promoted name and version |
| `AuditReplay.PromotionIsLoggedExactly` | ai-engine/creditiq_ai/model_operations/registry/file_registry.py:205-226 | A promotion over an incumbent stays faithfully logged if and only if the incumbent has the promoted model's name and no third record has the name and version of either |
| `AuditReplay.RollbackIsLoggedExactly` | ai-engine/creditiq_ai/model_operations/registry/file_registry.py:160-175 | A rollback stays faithfully logged under the same condition |
| `AuditReplay.StepIsLoggedExactly` | ai-engine/creditiq_ai/model_operations/registry/file_registry.py:307-329 | Every successful operation from a faithfully logged state stays so if and only if it meets the condition of its kind |
| `AuditReplay.RunIsLoggedExactly` | ai-engine/creditiq_ai/model_operations/registry/file_registry.py:307-329 | The log describes a whole run, at every moment of it, if and only if each operation that succeeds meets its condition |
| `AuditReplay.LogTellsTwoModelsApart` | ai-engine/creditiq_ai/model_operations/registry/file_registry.py:319-328 | Replay describes the run that registers two models and validates the first if and only if they differ in name or version |
| `AuditReplay.LogsAgreeExactly` | ai-engine/creditiq_ai/model_operations/registry/file_registry.py:319-328 | The runs that validate the first and the second of two models leave different records, and equal logs if and only if name and version agree: then no replay of any kind can tell them apart |
| `FileRegistry.FileModelRegistry.Register` | ai-engine/creditiq_ai/model_operations/registry/file_registry.py:45-65 | The stored content and the answer are those of the specification for every content, request and disk outcome; a stored record is at REGISTERED whatever stage was passed |
| `FileRegistry.FileModelRegistry.Transition` | ai-engine/creditiq_ai/model_operations/registry/file_registry.py:83-110 | Stored content, error and answer are exactly those of the specified transition, including the not-found, illegal-transition and conflict errors |
| `FileRegistry.FileModelRegistry.PromoteToProduction` | ai-engine/creditiq_ai/model_operations/registry/file_registry.py:177-226 | The in-place demotion and promotion amount to the specified simultaneous swap, with the audit event naming the replaced version |
| `FileRegistry.FileModelRegistry.Rollback` | ai-engine/creditiq_ai/model_operations/registry/file_registry.py:124-175 | Stored content and error are exactly those of the specified rollback, and the answer is the requested version, now in production |
| `FileRegistry.FileModelRegistry.GetModel` | ai-engine/creditiq_ai/model_operations/registry/file_registry.py:67-73 | Answers with the first record stored under the reference, or with the storage or not-found error |
| `FileRegistry.FileModelRegistry.ProductionModel` | ai-engine/creditiq_ai/model_operations/registry/file_registry.py:112-122 | Answers with the unique production record of the key, or with the storage or not-found error |
| `FileRegistry.FindRef` | ai-engine/creditiq_ai/model_operations/registry/file_registry.py:278-291 | The loop finds the first record with the reference |
| `FileRegistry.FindAll` | ai-engine/creditiq_ai/model_operations/registry/file_registry.py:194-199 | The loop finds exactly the matching positions, in order |
| `FileRegistry.OtherProductionExists` | ai-engine/creditiq_ai/model_operations/registry/file_registry.py:293-305 | True exactly when another reference of the key is in production |
| `FileRegistry.FailedCallChangesNothing` | ai-engine/creditiq_ai/model_operations/registry/file_registry.py:247-276 | A call that raises leaves the stored content untouched; one that succeeds stores the specified document with one more event |
| `FileRegistry.UnreadableIsKept` | ai-engine/creditiq_ai/model_operations/registry/file_registry.py:247-261 | Stored content that cannot be read, or has another schema version, makes every call fail and is never overwritten |
| `FileRegistry.MissingIsEmpty` | ai-engine/creditiq_ai/model_operations/registry/file_registry.py:248-249 | A missing file is an empty registry, and a refused write is a registry error |
| `RegistryStorage.VisibleRegistryIsAtomic` | ai-engine/creditiq_ai/model_operations/registry/file_registry.py:263-276 | At every point of every execution of temporary write, flush, fsync and replace, with any process crashes, failed writes and power losses, the registry path reads as the complete document of a run of the atomic registry |
| `RegistryStorage.OnlyReplaceIsVisible` | ai-engine/creditiq_ai/model_operations/registry/file_registry.py:266-272 | Only the replace changes what readers see, from the state before one successful operation to the state after it |
| `RegistryStorage.PowerLossRestoresAPrefix` | ai-engine/creditiq_ai/model_operations/registry/file_registry.py:267-271 | What a power loss restores is the complete state after some prefix of the committed operations, never a torn file |
| `RegistryStorage.DurableExactly` | ai-engine/creditiq_ai/model_operations/registry/file_registry.py:267-271 | A committed operation survives every power loss that may come now if and only if it was committed before the last recovery |
| `RegistryStorage.OnlyRecoveryMakesDurable` | ai-engine/creditiq_ai/model_operations/registry/file_registry.py:267-271 | A recovery makes durable all that it restores, and no other step makes anything durable |
| `RegistryStorage.CommittedMayBeLost` | ai-engine/creditiq_ai/model_operations/registry/file_registry.py:263-276 | An acknowledged registration with its complete write may be lost: the power loss after it may leave an empty registry |
| `RegistryStorage.WriteIsOutcome` | ai-engine/creditiq_ai/model_operations/registry/file_registry.py:263-276 | The registry object and the file protocol agree: however the temporary file is written, a write that ends in the replace leaves readers with the outcome of a call whose disk accepted it, and one that fails with the outcome of a call whose disk refused |
| `RegistryStorage.WriteCanComplete` | ai-engine/creditiq_ai/model_operations/registry/file_registry.py:266-271 | Every write that starts can reach its replace: all bytes, the sync, the replace |
| `RegistryStorage.WriteStartsExactly` | ai-engine/creditiq_ai/model_operations/registry/file_registry.py:247-264 | A write starts exactly for a call that the registry object answers without an error |
| `RegistryStorage.EveryEndFreesTheWriter` | ai-engine/creditiq_ai/model_operations/registry/file_registry.py:263-276 | However a write ends, the next may begin with any operation the readable registry accepts; only a process crash leaves the temporary file |
| `RegistryStorage.ExecutionIsConsistent` | ai-engine/creditiq_ai/model_operations/registry/file_registry.py:263-276 | Every execution keeps every directory entry synced, complete and equal to the run of a prefix of the committed operations |
| `Promotion.Evaluate` | ai-engine/creditiq_ai/model_operations/promotion/policy.py:14-38 | Approval exactly when every floor is met and no limited metric drops too far against the incumbent; each reason names exactly a metric that failed its test |
| `Promotion.ApprovedDropIsBounded` | ai-engine/creditiq_ai/model_operations/promotion/policy.py:19-32 | A metric both floored and drop-limited loses at most the allowed drop per approved replacement |
| `Promotion.ApprovalIsMonotone` | ai-engine/creditiq_ai/model_operations/promotion/policy.py:19-32 | Better metrics are approved when worse ones are, against the same or a worse incumbent |
| `Promotion.SingleLimitDecides` | ai-engine/creditiq_ai/model_operations/promotion/policy.py:19-32 | A floor alone demands the metric and at least its value; a drop limit alone demands no more than that drop and nothing of a metric that either model lacks |
| `Services.InterleavingIsARun` | ai-engine/creditiq_ai/model_operations/promotion/service.py:17-40 | Every interleaving of any number of promotion, rollback and direct calls performs a run of the atomic registry, so its invariant holds at every moment |
| `Services.GovernedProductionMeetsFloors` | ai-engine/creditiq_ai/model_operations/promotion/service.py:17-34 | When production is entered through the promotion service only, every production model meets every floor in every interleaving, however stale the incumbent a call compared with |
| `Services.RollbackMayReplaceAnotherVersion` | ai-engine/creditiq_ai/model_operations/rollback/service.py:13-32 | The source check of a rollback is not atomic with it: after an interposed promotion the rollback succeeds and takes out a version the request did not name, for every such registry |
| `StaleReads.CheckFindsServing` | ai-engine/creditiq_ai/model_operations/rollback/service.py:16-28 | The check of a rollback passes exactly when the version it names is in production |
| `StaleReads.ServesAfterExactly` | ai-engine/creditiq_ai/model_operations/registry/file_registry.py:83-226 | After one operation a record is in production exactly when it was and the operation is no successful transition of it and no promotion or rollback of its key, or the operation brings it in |
| `StaleReads.StillServesExactly` | ai-engine/creditiq_ai/model_operations/registry/file_registry.py:83-226 | After any operations a production record is still in production if and only if none took it out without its being brought back later |
| `StaleReads.RollbackTakesOutTheNamedExactly` | ai-engine/creditiq_ai/model_operations/rollback/service.py:19-32 | A rollback that was checked, and that succeeds after any interposed calls and services, takes out the version its request named if and only if none of them took that record out without its being brought back |
| `StaleReads.PromotionReplacesTheComparedExactly` | ai-engine/creditiq_ai/model_operations/promotion/service.py:26-33 | A promotion approved against an incumbent, and that succeeds after any interposed calls, replaces that incumbent if and only if the same holds; the promoted model is then within every allowed drop of the one it replaces |
| `StaleReads.StillVacantExactly` | ai-engine/creditiq_ai/model_operations/registry/file_registry.py:83-226 | A key without production record is still without one after any operations if and only if none filled it without its being emptied later |
| `StaleReads.PromotionReplacesNoneExactly` | ai-engine/creditiq_ai/model_operations/promotion/service.py:26-33 | A promotion approved with no incumbent to compare with, and that succeeds after any interposed calls, replaces none if and only if the same holds |
| `ServiceCalls.UninterruptedIsThreeSteps` | ai-engine/creditiq_ai/model_operations/promotion/service.py:17-34 | A promotion without interference is its three accesses back to back |
| `ServiceCalls.PromotionSucceedsExactly` | ai-engine/creditiq_ai/model_operations/promotion/service.py:17-34 | An uninterrupted promotion succeeds if and only if the reference names a champion that meets every minimum and loses no more than allowed to the version its key has in production; otherwise it is not found or rejected |
| `ServiceCalls.IncumbentIsInProduction` | ai-engine/creditiq_ai/model_operations/promotion/service.py:36-40 | The incumbent compared with is the key's record in production, and there is none if and only if no record is |
| `ServiceCalls.UninterruptedRollbackIsTwoSteps` | ai-engine/creditiq_ai/model_operations/rollback/service.py:13-32 | A rollback without interference is its two accesses back to back; when it succeeds the named version was in production and the target is |
| `ServiceCalls.RollbackCallSucceedsExactly` | ai-engine/creditiq_ai/model_operations/rollback/service.py:13-32 | An uninterrupted rollback succeeds if and only if the named version is its key's in production and the target is a champion of the key; otherwise nothing is found or the rollback is refused |
| `ServiceCalls.DegradationIsBounded` | ai-engine/creditiq_ai/model_operations/promotion/service.py:17-34 | With production entered by uninterrupted promotions only, in every run a production value is at least the first value of its tenure less the allowed drop for each replacement since |
| `ServiceCalls.PromotionService.Promote` | ai-engine/creditiq_ai/model_operations/promotion/service.py:17-34 | The method changes the stored registry exactly as the uninterrupted promotion does and answers with the stored record and the approving decision, or the first error |
| `ServiceCalls.RollbackService.Execute` | ai-engine/creditiq_ai/model_operations/rollback/service.py:13-32 | A call without interference succeeds if and only if the named version is in production, the registry can roll back to the target and the disk accepts it; it then serves the target, and a failing call changes nothing |
| `Lineage.Build` | ai-engine/creditiq_ai/model_operations/lineage/graph.py:12-17 | The constructor accepts exactly the version lists of one identity whose parents are all known and whose parent relation is acyclic |
| `Lineage.CollectedIsLast` | ai-engine/creditiq_ai/model_operations/lineage/graph.py:13 | The graph holds exactly the listed versions, each with its last record |
| `Lineage.KnownParentsAreListed` | ai-engine/creditiq_ai/model_operations/lineage/graph.py:43-51 | With each version listed once, validation finds every parent if and only if each record's parent, the empty string included, is a listed version |
| `Lineage.OneIdentityIsOne` | ai-engine/creditiq_ai/model_operations/lineage/graph.py:14-16 | Where keys are unambiguous, one key means that all records share name, family and environment |
| `Lineage.Validated` | ai-engine/creditiq_ai/model_operations/lineage/graph.py:43-51 | Validation by walking every version succeeds if and only if parents are known and no cycle exists |
| `Lineage.Ancestors` | ai-engine/creditiq_ai/model_operations/lineage/graph.py:23-34 | The walk terminates; it succeeds exactly when the chain of parents ends in the graph, and returns that chain in order, without repeats and shorter than the graph |
| `Lineage.AncestorsAreReachableSet` | ai-engine/creditiq_ai/model_operations/lineage/graph.py:27-34 | The chain the walk returns holds everything reachable by parent links |
| `Lineage.EndingChainsAreAcyclic` | ai-engine/creditiq_ai/model_operations/lineage/graph.py:43-51 | If every chain ends there is no cycle |
| `Lineage.ChildrenInvertFirstAncestor` | ai-engine/creditiq_ai/model_operations/lineage/graph.py:36-41 | children(v) is exactly the set of records whose first ancestor is v, if and only if v is not the empty string or no record names the empty string as parent |
| `Lineage.ListChildren` | ai-engine/creditiq_ai/model_operations/lineage/graph.py:36-41 | Fails exactly for an unknown version; otherwise lists exactly its children, strictly ascending by version |
| `FeaturePipeline.FeatureEngineeringPipeline.Transform` | ai-engine/creditiq_ai/feature_engineering/pipeline.py:34-63 | Succeeds if and only if some order of the generators meets every dependency; the frame is then that of the order the passes take, over exactly the columns of the least fixpoint; else it reports exactly the generators with a dependency outside it and, by name, those dependencies |
| `FeaturePipeline.RunPass` | ai-engine/creditiq_ai/feature_engineering/pipeline.py:42-51 | One pass takes the pending generators from the front, runs those that are ready by then after what had run, and keeps the others pending in order |
| `FeaturePipeline.GenerateAssigns` | ai-engine/creditiq_ai/feature_engineering/pipeline.py:41-61 | A generator's columns are computed from the frame it is given, and every other column stays |
| `FeaturePipeline.MetListingRunsAsListed` | ai-engine/creditiq_ai/feature_engineering/pipeline.py:41-61 | A listing that meets its dependencies runs as listed, in one pass |
| `FeaturePipeline.FeaturesAreProduced` | ai-engine/creditiq_ai/feature_engineering/pipeline.py:41-61 | The reported features are those of the generators run, and as many |
| `FeaturePipeline.PassesOrder` | ai-engine/creditiq_ai/feature_engineering/pipeline.py:40-51 | The order the passes take meets its dependencies, loses no generator and leaves none that is ready |
| `FeaturePipeline.StuckAtFixpoint` | ai-engine/creditiq_ai/feature_engineering/pipeline.py:41-51 | When nothing is ready the columns are exactly the least fixpoint, and all have run if and only if every dependency lies in it |
| `FeaturePipeline.ResolvableIsClosure` | ai-engine/creditiq_ai/feature_engineering/pipeline.py:34-63 | Some order meets every dependency if and only if every dependency lies in the least fixpoint |
| `FeaturePipeline.ListingOrderIsIrrelevant` | ai-engine/creditiq_ai/feature_engineering/pipeline.py:27-31 | Success and final columns do not depend on how the configuration lists the generators |
| `FeaturePipeline.ValuesAreOrderIndependent` | ai-engine/creditiq_ai/feature_engineering/pipeline.py:34-63 | Any two dependency-respecting orders give equal frames, values included, when outputs are distinct and absent from the raw frame and no generator reads another's output without declaring it; each may look at any other column and at which of them are there |
| `StandardFeatures.FullSetResolvesExactly` | ai-engine/creditiq_ai/feature_engineering/generators.py:61-210 | The ten declared generators, in any order, resolve if and only if the frame has monthly income and monthly expenses |
| `StandardFeatures.DependenciesAreRead` | ai-engine/creditiq_ai/feature_engineering/generators.py:61-210 | A registered generator declares only columns that it reads |
| `StandardFeatures.DependenciesByColumn` | ai-engine/creditiq_ai/feature_engineering/generators.py:61-210 | Three features need the income, two the expenses, and the index its five parts; nothing else is needed |
| `StandardFeatures.StandardReadsAreLocal` | ai-engine/creditiq_ai/feature_engineering/generators.py:61-234 | The columns each of the ten generators may look at, optional ones and series included, meet that premise |
| `StandardFeatures.StandardValuesAreOrderIndependent` | ai-engine/creditiq_ai/feature_engineering/generators.py:61-234 | So any registered generators, listed once each, give the same frame in every dependency-respecting order over every raw frame without the ten features |
| `RateLimit.RedisRateLimiter.Enforce` | backend/app/core/rate_limit.py:32-45 | Admits exactly while the window's count is within the limit; a rejection tells at least one second and, for a positive limit, keeps the window's end; other keys are untouched; an unreachable store admits nothing |
| `RateLimit.StoreImplementsWindows` | backend/app/core/rate_limit.py:17-23 | For any interleaving of keys, the counter store admits a key's requests exactly as a sequence of fixed windows does |
| `RateLimit.WindowAdmitsAtMostLimit` | backend/app/core/rate_limit.py:17-23 | No window admits more than the limit |
| `RateLimit.WindowsAreSpaced` | backend/app/core/rate_limit.py:19-21 | Successive windows start at least one window length apart |
| `RateLimit.IntervalAdmitsLessThanTwoLimits` | backend/app/core/rate_limit.py:17-45 | Any half-open interval one window long admits at most 2 * limit - 1 requests of a key, one fewer than two full windows |
| `RateLimit.BurstMeetsTheBound` | backend/app/core/rate_limit.py:17-45 | For every positive limit a burst reaches that bound, so it cannot be lowered |
| `RateLimit.NoWindowNoLimit` | backend/app/core/rate_limit.py:19-21 | A window length that is not positive limits nothing |
| `Delinquency.Calculate` | backend/app/api/analytics.py:263-314 | The one-pass calculation reports exactly the group-by-loan specification: portfolio, overdue amount, delinquent count, worst delay and at-risk table |
| `Delinquency.Accumulate` | backend/app/api/analytics.py:267-291 | After the pass each loan's balance is the sum of its clamped outstandings and its delay the worst of its unpaid installments |
| `Delinquency.ParTable` | backend/app/api/analytics.py:294-307 | Each threshold's entry is the balance of the loans at least that late, and its share of the portfolio rounded to four decimals |
| `Delinquency.WorstIsGreatest` | backend/app/api/analytics.py:287-289 | A loan's delay is attained by an unpaid installment and not exceeded by any |
| `Delinquency.PortfolioIsConserved` | backend/app/api/analytics.py:293 | Grouping loses nothing: the portfolio is the sum of all clamped outstandings |
| `Delinquency.PortfolioMatchesSchedule` | backend/app/api/analytics.py:278-293 | Portfolio plus payments is what the schedule asks for in principal and interest plus what was overpaid on single installments |
| `Delinquency.RiskMatchesSchedule` | backend/app/api/analytics.py:278-307 | The overdue amount obeys that law on the installments more than the grace period old, and each balance at risk on all installments of the loans with an unpaid one at least as old as the threshold |
| `Delinquency.DelayIsInDays` | backend/app/api/analytics.py:285-289 | A loan counts if and only if it has an unpaid installment, and its delay is the age in days of its oldest, or 0 |
| `Delinquency.LongestDelayIsInDays` | backend/app/api/analytics.py:312 | The longest delay is the age in days of the oldest unpaid installment of all, or 0 |
| `Delinquency.DelinquencyIsInDays` | backend/app/api/analytics.py:290-311 | A loan is delinquent if and only if an unpaid installment of it is more than the grace period old, so there is one if and only if something is overdue |
| `Delinquency.RatioIsNear` | backend/app/api/analytics.py:306 | A ratio is within half of its last decimal of the exact share |
| `Delinquency.RatioEnds` | backend/app/api/analytics.py:306 | Nothing at risk is a ratio of 0, of an empty portfolio too, and everything a ratio of 1 |
| `Delinquency.ParIsOrdered` | backend/app/api/analytics.py:294-307 | The balance at risk never rises with the threshold, is at most the portfolio, covers the overdue amount up to one day past the grace period, and is the whole portfolio at thresholds up to zero |
| `Delinquency.ReportIsOrdered` | backend/app/api/analytics.py:303-314 | On every report the rounded ratios lie between 0 and 1 and never rise with the threshold, and no delinquent loan means nothing overdue |
| `Delinquency.RowOrderIsIrrelevant` | backend/app/api/analytics.py:270-291 | Any permutation of the rows gives the same report |
| `Delinquency.ReportIsUnique` | backend/app/api/analytics.py:308-314 | The specification admits one report only |
| `ConfigMerge.DeepMerge` | ai-engine/creditiq_ai/config/loader.py:58-65 | The loop over the override computes the recursive merge |
| `ConfigMerge.MergeLeaves` | ai-engine/creditiq_ai/config/loader.py:58-65 | Leaf law: the leaves of a merge are the override's, and those of the base not shadowed by an override leaf on a prefix or an override mapping at the path |
| `ConfigMerge.MergeAbsorbs` | ai-engine/creditiq_ai/config/loader.py:58-65 | Merging the same override again changes nothing |
| `ConfigMerge.MergeIsIdempotent` | ai-engine/creditiq_ai/config/loader.py:58-65 | Merging a tree into itself gives the tree |
| `ConfigMerge.ApplyOverrides` | ai-engine/creditiq_ai/config/loader.py:70-82 | The overrides take effect in place one after the other in the order listed; the first refused one fails the whole with a configuration error and leaves exactly the overrides before it |
| `ConfigMerge.OverrideStands` | ai-engine/creditiq_ai/config/loader.py:70-82 | When all overrides succeed, each stands with its value unless a later one replaces it |
| `ConfigMerge.OverridesKeepTheRest` | ai-engine/creditiq_ai/config/loader.py:70-82 | Every path that no override touches keeps what the configuration had |
| `ConfigMerge.AssignIsSet` | ai-engine/creditiq_ai/config/loader.py:74-81 | The walk that creates mappings on its way leaves the tree untouched when it is refused |
| `ConfigMerge.SetFailsExactly` | ai-engine/creditiq_ai/config/loader.py:74-80 | An override is refused if and only if a scalar stands on the way to its path |
| `ConfigMerge.SetLeaves` | ai-engine/creditiq_ai/config/loader.py:74-81 | A successful override sets its path, removes what was below, and leaves every incomparable path as it was |
| `ConfigMerge.OverrideOrderMattersExactly` | ai-engine/creditiq_ai/config/loader.py:70-81 | Two overrides that each succeed alone give the same outcome in both orders if and only if neither path is a prefix of the other or they are the same override |
| `Monitoring.InMemoryDecisionMonitor.Record` | ai-engine/creditiq_ai/model_operations/monitoring/in_memory.py:23-28 | The window becomes the last retained events of the old window and the new event; a disabled monitor records nothing |
| `Monitoring.InMemoryDecisionMonitor.Snapshot` | ai-engine/creditiq_ai/model_operations/monitoring/in_memory.py:30-34 | The snapshot is the aggregate of the retained events |
| `Monitoring.RedisDecisionMonitor.Record` | ml-engine/src/serving/redis_monitor.py:50-58 | The list becomes the last retained events of the live list and the new event, and lives for another time to live |
| `Monitoring.RedisDecisionMonitor.Snapshot` | ml-engine/src/serving/redis_monitor.py:60-69 | The snapshot is the aggregate of the events that have not expired |
| `Monitoring.BothHoldTheLastEvents` | ml-engine/src/serving/redis_monitor.py:50-58 | After any record sequence without a gap as long as the time to live both monitors hold exactly the last min(n, retention) events in order |
| `Monitoring.GapForgets` | ml-engine/src/serving/redis_monitor.py:57 | After such a gap the Redis list is that of the later records alone |
| `Monitoring.WindowsAgreeExactly` | ai-engine/creditiq_ai/config/models.py:285 | The two windows agree after every history without such a gap if and only if the retention is at least one, which the configuration demands |
| `Monitoring.AggregateEvents` | ai-engine/creditiq_ai/model_operations/monitoring/aggregation.py:12-43 | Counts, the rounded failure rate, mean and nearest-rank 95th percentile, and the health and reasons that the exact rate and mean imply; unknown for no events |
| `Monitoring.FailureRateIsShare` | ai-engine/creditiq_ai/model_operations/monitoring/aggregation.py:28-29 | The failure rate is 0 if and only if every event succeeded, and 1 if and only if none did |
| `Monitoring.AverageIsBetween` | ai-engine/creditiq_ai/model_operations/monitoring/aggregation.py:31 | The mean lies within any bounds of the latencies |
| `Monitoring.AverageAdds` | ai-engine/creditiq_ai/model_operations/monitoring/aggregation.py:31 | One more event adds its latency to mean times count |
| `Monitoring.ShownIsNear` | ai-engine/creditiq_ai/model_operations/monitoring/aggregation.py:38-40 | What is shown is within half of its last decimal of the exact figures |
| `Monitoring.SnapshotCounts` | ai-engine/creditiq_ai/model_operations/monitoring/aggregation.py:16-28 | The count is failures and successes together, and without events the health is unknown |
| `Monitoring.PercentileIsObserved` | ai-engine/creditiq_ai/model_operations/monitoring/aggregation.py:32-33 | The percentile is the latency of some event |
| `Monitoring.PercentileByRank` | ai-engine/creditiq_ai/model_operations/monitoring/aggregation.py:30-33 | Of 20k events in ascending order the percentile is the (19k)th |
| `Monitoring.HealthIsExact` | ai-engine/creditiq_ai/model_operations/monitoring/aggregation.py:52-64 | The status and each reason, by the inclusive thresholds that the two figures reach |
| `Monitoring.Percentile95` | ai-engine/creditiq_ai/model_operations/monitoring/aggregation.py:30-33 | The indexed element of the sorted latencies is the least value that 95 per cent of the events do not exceed |
| `Monitoring.PercentileIsUnique` | ai-engine/creditiq_ai/model_operations/monitoring/aggregation.py:32-33 | There is only one such value |
| `Monitoring.EventOrderIsIrrelevant` | ai-engine/creditiq_ai/model_operations/monitoring/aggregation.py:28-43 | Any permutation of the events gives the same snapshot |
| `Monitoring.Health` | ai-engine/creditiq_ai/model_operations/monitoring/aggregation.py:46-64 | The status is the worse of the two levels, and the reasons are those of each level in order |
| `Monitoring.HealthIsMonotone` | ai-engine/creditiq_ai/model_operations/monitoring/aggregation.py:46-64 | Health never improves when the failure rate or the mean latency rises, however thresholds are set |
| `RuleEngine.Evaluate` | ai-engine/creditiq_ai/credit_intelligence/business_rules/engine.py:35-56 | Fails exactly when a rule fails before any rule stops the evaluation, and with its error; otherwise the results are those of the plan up to and including the first stopping rule, with their triggered part, action and warnings |
| `RuleEngine.EarlyStopIsSound` | ai-engine/creditiq_ai/credit_intelligence/business_rules/engine.py:43-49 | Against running every rule: the results are a prefix, the recommended action is the same, and it stopped early if and only if some rule triggers a stop action |
| `RuleEngine.PlanIsOrdered` | ai-engine/creditiq_ai/credit_intelligence/business_rules/engine.py:39-42 | The plan holds exactly the enabled rules, in (priority, name) order |
| `RuleEngine.ComparisonsAreTotal` | ai-engine/creditiq_ai/credit_intelligence/business_rules/engine.py:17-26 | Ordering is defined exactly between two numbers or two texts; then exactly one of less, equal and greater holds, and the other operators agree with them |
| `RuleEngine.NumbersCompare` | ai-engine/creditiq_ai/credit_intelligence/business_rules/engine.py:17-26 | Between numbers the operators are the comparisons they are named after |
| `RuleEngine.TextsCompare` | ai-engine/creditiq_ai/credit_intelligence/business_rules/engine.py:17-26 | Between texts the first differing character decides, and a proper prefix is the lesser |
| `RuleEngine.MembershipIsStanding` | ai-engine/creditiq_ai/credit_intelligence/business_rules/engine.py:24-25 | Membership is standing somewhere in the list, or at some position of the text |
| `RuleEngine.ComparisonFailsExactly` | ai-engine/creditiq_ai/credit_intelligence/business_rules/engine.py:72-78 | A comparison is refused if and only if an ordering meets a number and a text, or a list, or a membership neither a list nor two texts |
| `RuleEngine.ResultDescribesRule` | ai-engine/creditiq_ai/credit_intelligence/business_rules/engine.py:58-89 | The result carries the rule's own name, priority, severity and action and the filled-in explanation; a missing field never triggers or fails; and which failures give which error |
| `RuleEngine.ThresholdRulesAreMonotone` | ai-engine/creditiq_ai/credit_intelligence/business_rules/engine.py:17-26 | What triggers below a threshold still triggers further below it, what triggers above one still further above, and values on its two sides are told apart |
| `RuleEngine.FirstTriggeredDecides` | ai-engine/creditiq_ai/credit_intelligence/business_rules/engine.py:48-49 | The recommended action is that of the first triggered rule, or to proceed |
| `RuleEngine.TriggeredAreThoseMarked` | ai-engine/creditiq_ai/credit_intelligence/business_rules/engine.py:48 | The triggered results are exactly those marked so, as often as they were produced |
| `RuleEngine.WarningsNameMissingFields` | ai-engine/creditiq_ai/credit_intelligence/business_rules/engine.py:61-62 | One warning for each evaluated rule with a missing field, and it names the field |
| `RuleEngine.SmallerPriorityRunsFirst` | ai-engine/creditiq_ai/credit_intelligence/business_rules/engine.py:39-42 | Of two planned rules the earlier has the smaller priority number, or the same one and no later name |
| `RuleEngine.PlanIsStable` | ai-engine/creditiq_ai/credit_intelligence/business_rules/engine.py:39-42 | Enabled rules of one priority and name keep their configured order |
| `RuleEngine.ConfigurationOrderIsIrrelevant` | ai-engine/creditiq_ai/credit_intelligence/business_rules/engine.py:39-42 | The plan does not depend on the listing order when no two different enabled rules share priority and name |
| `RuleEngine.PlanIgnoresListingExactly` | ai-engine/creditiq_ai/credit_intelligence/business_rules/engine.py:39-42 | Every permutation of a rule list gives the same plan if and only if no two different enabled rules share priority and name |
| `FraudScoring.ScoreIsMonotone` | ai-engine/creditiq_ai/fraud_intelligence/scoring/engine.py:35-47 | With non-negative weights, raising any signal never lowers the rounded score or its band, and the score stays in the configured range |
| `FraudScoring.SoleWeightDecides` | ai-engine/creditiq_ai/fraud_intelligence/scoring/engine.py:36-43 | A signal that alone carries weight is the probability |
| `FraudScoring.EqualSignalsDecide` | ai-engine/creditiq_ai/fraud_intelligence/scoring/engine.py:36-46 | With all weight on the signals, equal signals are the probability, so the score reaches both ends of its range |
| `FraudScoring.SignalsContribute` | ai-engine/creditiq_ai/fraud_intelligence/scoring/engine.py:36-43 | The probability times all weight is the sum of what each signal contributes, so weight on other keys dilutes it; without weights it is 0 |
| `FraudScoring.ScoreIsProportional` | ai-engine/creditiq_ai/fraud_intelligence/scoring/engine.py:45-46 | The score divides its range as the probability divides the unit, within half a point |
| `FraudScoring.AssessmentReports` | ai-engine/creditiq_ai/fraud_intelligence/scoring/engine.py:46-59 | An assessment reports that score, the probability to four decimals, and the level of the best band the score reaches |
| `FraudScoring.AssessNeverFailsExactly` | ai-engine/creditiq_ai/fraud_intelligence/models/results.py:26-38 | With non-negative weights every triple of signals is assessed if and only if the scores of no signal and of full signals lie within 0 to 1000 |
| `Bands.BandIsBest` | ai-engine/creditiq_ai/fraud_intelligence/scoring/engine.py:61-65 | First match over the sorted bands picks the greatest minimum the score reaches, or the least band of all |
| `Bands.BandIsMonotone` | ai-engine/creditiq_ai/fraud_intelligence/scoring/engine.py:33 | A higher score never gets a band with a lower minimum |
| `Bands.TiesFollowTheListing` | ai-engine/creditiq_ai/fraud_intelligence/scoring/engine.py:33 | Among bands of one minimum the first listed is chosen for a score that reaches it, and the last listed for one that reaches none |
| `Rounding.RoundIsMonotone` | ai-engine/creditiq_ai/fraud_intelligence/scoring/engine.py:46 | Half-even rounding keeps order |
| `Rounding.TiesGoToEven` | ai-engine/creditiq_ai/fraud_intelligence/scoring/engine.py:46 | Rounding moves a number by at most a half, and from halfway to the even neighbour |
| `Rounding.RoundToIsNear` | ai-engine/creditiq_ai/fraud_intelligence/scoring/engine.py:55 | Rounding to a number of decimals moves a value by at most half a unit of the last one |
| `Decision.Recommend` | ai-engine/creditiq_ai/decision/policy.py:18-52 | The action by what is available, and exactly which reasons are given, how many, and credit's first |
| `Decision.ReasonsDecide` | ai-engine/creditiq_ai/decision/policy.py:18-52 | The reasons tell the recommendation: each kind of overriding reason names what replaced credit's recommendation, and without one that stands |
| `Decision.BaseIsConfigured` | ai-engine/creditiq_ai/decision/policy.py:36 | A configured band is recommended as configured, any other is reviewed |
| `Decision.FraudOnlyTightens` | ai-engine/creditiq_ai/decision/policy.py:39-52 | Whatever the fraud side reports, the recommendation is at least as conservative as credit alone gives |
| `Decision.MoreFraudIsNeverMilder` | ai-engine/creditiq_ai/decision/policy.py:39-45 | Raising any fraud signal never makes the recommendation less conservative when the reject and the reject-or-block levels are upward closed along the bands |
| `Decision.CreditMonotoneExactly` | ai-engine/creditiq_ai/decision/policy.py:36-52 | For every ranking of actions, worse credit never gives a milder outcome if and only if each action that stands in for an approval, under a blocking level or a failed fraud assessment, ranks no higher than any other action credit can recommend |
| `Decision.WorseCreditMayRelax` | ai-engine/config/base.yaml:220-232 | The shipped policy fails that condition: under a high fraud level low credit risk goes to manual review and medium credit risk to the milder review |
| `Decision.ApprovalIsSafeExactly` | ai-engine/creditiq_ai/decision/policy.py:29-52 | Approval implies complete data, both assessments working, an approving band and a level in neither set, for all inputs, if and only if no reachable fallback action is itself approval |
| `Decision.Decide` | ai-engine/creditiq_ai/decision/engine.py:58-154 | Refuses exactly on an integrity failure of a reached model; otherwise scores, bands, rounded probabilities, confidence, recommendation, reasons and warnings are those of what was available, every other failure is warned about, and a failing monitor never changes the recommendation |
| `Decision.FailedCreditIsWorst` | ai-engine/creditiq_ai/decision/engine.py:70-81 | A failed credit assessment is decided as the worst one: no answer of the predictor gives a lower score or a higher probability of default, there is no confidence, and the configured action for it is recommended |
| `Decision.AnswersAreReported` | ai-engine/creditiq_ai/decision/engine.py:72 | An answered probability is reported to four decimals, and fraud is assessed if and only if its assessor answers and the score is admissible |
| `Decision.MonitorHasNoSay` | ai-engine/creditiq_ai/decision/engine.py:131-154 | Whatever the monitor does changes nothing but its warning and the degradation, and a decision is degraded if and only if fraud or the monitor is warned about |
| `Decision.ConfidenceIsBetween` | ai-engine/creditiq_ai/decision/engine.py:156-167 | With non-negative weights, not both zero, the confidence lies between the decisiveness of the two assessments, so within 0 and 1 |
| `Decision.DecisivenessLaw` | ai-engine/creditiq_ai/decision/engine.py:161-163 | Even odds are not decisive, certainty is fully so, and in between decisiveness is what is left over twice the less likely outcome |
| `Decision.SoleAssessmentDecides` | ai-engine/creditiq_ai/decision/engine.py:159-167 | No credit assessment gives no confidence; an assessment that is alone, or alone carries weight, gives its own decisiveness |
| `Decision.CreditScoreFalls` | ai-engine/creditiq_ai/decision/credit_score.py:28-34 | A higher probability of default never gives a higher credit score, and scores stay in range, for any non-decreasing logarithm |
| `Decision.CreditScoreIsNear` | ai-engine/creditiq_ai/decision/credit_score.py:31-34 | The score is within half a point of the raw one unless an end of the range stops it |
| `Decision.OddsAreOfNotDefaulting` | ai-engine/creditiq_ai/decision/credit_score.py:29-30 | The odds are those of not defaulting, with the probability held a millionth away from certainty |
| `Decision.CreditBandIsBest` | ai-engine/creditiq_ai/decision/credit_score.py:36-40 | The credit band is the best one the score reaches, or the least; without bands it is unknown |
| `Decision.CreditBandFalls` | ai-engine/creditiq_ai/decision/credit_score.py:36-40 | So a higher probability of default never gives a credit band with a higher minimum |
| `Decision.ScorecardLaw` | ai-engine/creditiq_ai/decision/credit_score.py:28-33 | Base odds give the base score, and doubling the odds adds exactly pdo points before rounding |
| `ApiClient.EveryInterleavingIsSound` | frontend/src/lib/api.ts:18-59 | In every interleaving at most one refresh is under way and the shared promise is set exactly then; each request sends its own path at most twice, a second time only after a refresh that resolved true |
| `ApiClient.AnswersDecide` | frontend/src/lib/api.ts:25-36 | An answer ends the sending of a request unless it is the first 401 to a download or to another path than the refresh; then the request waits for the refresh under way, which is started exactly when none was |
| `ApiClient.ResumeDecides` | frontend/src/lib/api.ts:25-28 | For every sound client, a request whose refresh resolved true is sent again, once and with no further retry, and one whose refresh resolved false ends with its 401 |
| `ApiClient.RetriedExactly` | frontend/src/lib/api.ts:25-28 | In every interleaving a request has been sent a second time if and only if it went on after the body of the refresh it waited for was read |
| `ApiClient.RetryCanSucceed` | frontend/src/lib/api.ts:18-36 | From every sound client, a request that meets its first 401 has answers under which it is sent again and succeeds with the new token |
| `ApiClient.VerdictStep` | frontend/src/lib/api.ts:38-60 | A refresh gets its verdict while it is the one under way: true if and only if its body is read, false if and only if it is refused or fails |
| `ApiClient.RequestsAreKept` | frontend/src/lib/api.ts:18-36 | An event changes no request but its own, a request keeps its path, an unreachable server fails its request, and a settled request stays settled |
| `ApiClient.WaitersShareOneRefresh` | frontend/src/lib/api.ts:38-59 | All requests that wait for an unresolved refresh wait for the same one |
| `ApiClient.SuccessWasAccepted` | frontend/src/lib/api.ts:30-35 | In every interleaving a request has succeeded if and only if the server accepted it and the body, if there was one, was read |
| `ApiClient.TokenIsLastWritten` | frontend/src/lib/api.ts:6-16 | In every interleaving the client holds what the last writer wrote - a refresh body, a delivered session result, a stored token or a clearing - and nothing if there was none; requests, downloads and failed refreshes leave it alone |
| `ApiClient.LogoutIsFinalExactly` | frontend/src/lib/api.ts:18-98 | While no caller starts anything new, no token comes back after a logout if and only if no refresh is under way, no request or download can still start one, and no login, second factor or change of organization under way can still deliver a token |
| `ApiClient.UnsettledIsNotStuck` | frontend/src/lib/api.ts:23-28 | While a request is not settled some answer or resumption is outstanding: none waits for nothing |
| `ApiClient.StepUsesWork` | frontend/src/lib/api.ts:18-59 | Every answer, failure and resumption strictly lowers a bound on the events still to come |
| `ApiClient.RequestsSettle` | frontend/src/lib/api.ts:18-59 | Once nothing new is started only boundedly many events remain, and if every call settles so does every request |
| `LoanWorkflow.LoanWorkflowPolicy.Allowed` | backend/app/modules/loan/workflow.py:37-55 | The allowed set is exactly the graph's targets that the tenant settings do not withhold |
| `LoanWorkflow.Loan.Transition` | backend/app/modules/loan/service.py:106-148 | Moves and records one event exactly when the settings allow the move; otherwise status and events stay as they were; the status is always where the events lead from draft |
| `LoanWorkflow.GraphIsExact` | backend/app/shared/enums.py:75-97 | The graph, by rank: a status leads to the next rank, back for information from the three reviews, to rejection from two of them, past the analyst to approval and past a default to the close |
| `LoanWorkflow.SettingsDecideExactly` | backend/app/modules/loan/workflow.py:37-55 | What each setting withholds: the officer decides if and only if no analyst is required, which a threshold does from its own amount on; no setting touches any move but those of its kind |
| `LoanConcurrency.EveryEventIsLegal` | backend/app/modules/loan/service.py:114-148 | In every interleaving of sessions that read the status without a lock and write later, each recorded event is a legal move from the status its session read, and the loan is where the last event led |
| `LoanConcurrency.EveryWriteUsesARead` | backend/app/modules/loan/service.py:114-148 | There are no more recorded events than reads: a session writes once for each time it reads |
| `LoanConcurrency.HistoryIsChainedExactly` | backend/app/modules/loan/service.py:114-148 | The recorded events form one history if and only if no write was recorded after the status its session read had changed |
| `LoanConcurrency.FreshRunsDecideOnce` | backend/app/modules/loan/service.py:114-148 | Then the loan is decided at most once |
| `LoanConcurrency.ConcurrentDecisionsBothRecord` | backend/app/modules/loan/service.py:80-126 | Two sessions that both read a loan in officer review can both decide it: an approval and a rejection are recorded, and it ends rejected |
| `LoanWorkflow.ApprovalWasScreened` | backend/app/shared/enums.py:75-97 | In every run, under any settings that may change at each step, an approval directly follows review, AI analysis, fraud screening and officer review in that order, with at most an analyst review in between: so since the start and since the last request for information |
| `LoanWorkflow.AnalystDecidesWhenRequired` | backend/app/modules/loan/workflow.py:43-55 | When the settings require an analyst for the amount, a decision is only taken from an analyst review that an officer passed on |
| `LoanWorkflow.DecidedAtMostOnce` | backend/app/shared/enums.py:75-97 | No decided status is entered twice: a loan is approved or rejected once and disbursed, activated, defaulted and closed at most once |
| `LoanWorkflow.ForbiddenStagesAreAvoided` | backend/app/modules/loan/workflow.py:39-42 | A stage that the settings of every step forbid is never entered, and without requests for information a run makes at most 11 transitions |
| `LoanWorkflow.RunsAreBounded` | backend/app/shared/enums.py:75-97 | A run with k requests for information makes at most 11 + 6k transitions |
| `LoanWorkflow.RunsMeetTheBound` | backend/app/shared/enums.py:75-97 | For every k some run makes exactly that many |
| `LoanWorkflow.DecisionStaysReachable` | backend/app/modules/loan/workflow.py:37-46 | No settings strand a loan: from every undecided run, under any settings and amount, it can still be approved and still be rejected |

## Left out

- FileRegistry.FileModelRegistry: the accessors `list_versions` and `audit_events`; the actor, reason, identifiers and timestamps of audit events, which no operation reads; several registry objects or processes over one file, since the source's lock is per object; and documents without the `models` or `audit_events` key.
- RegistryStorage.VisibleRegistryIsAtomic: JSON itself; of the encoding only that decoding undoes it is assumed, over an open unit of storage because records hold real numbers. The file system is an atomic rename, a content that survives once synced, and directory entries that a power loss may turn back; other failures of a disk are not modelled.
- Services.InterleavingIsARun: storage errors and refused writes during interleavings; the uninterrupted methods of `ServiceCalls` have them.
- FeaturePipeline.ValuesAreOrderIndependent: each generator's formula is a function of the frame it is given, uninterpreted, and its reads are a premise; pandas and missing values are not modelled.
- RateLimit.RedisRateLimiter.Enforce: the clock is a parameter, and in the interval bounds does not run backwards; the Redis server is a map with expiries whose only failure is being unreachable.
- Delinquency.Calculate: money is in integer minor units and the ratio is rounded from the exact quotient; conversion of amounts to floating point for display is not modelled.
- Monitoring.AggregateEvents: rounding is from exact rates, means and latencies rather than floating point ones.
- Monitoring.RedisDecisionMonitor.Record: serialization of events, and failures of the Redis connection.
- ConfigMerge.ApplyOverrides: trees are values, so sharing of subtrees between the merged and the base tree is not captured; splitting variable names into paths and coercing their text into values are left out.
- RuleEngine.Evaluate: values other than numbers, texts and lists of them; filling in an explanation is a parameter that may fail.
- FraudScoring.ScoreIsMonotone: reals instead of floating point; the suggested action by level and the reported components carry no logic.
- Decision.Decide: correlation identifiers, durations and timestamps; predictors and assessors are parameters.
- Decision.CreditScoreFalls: the logarithm is any non-decreasing function.
- ApiClient.EveryInterleavingIsSound: request bodies and headers, and what callers do with results besides storing a token, which counts as something new. A download's empty answer is taken as complete without reading its body. The asynchronous functions are modelled as the steps between their awaits, not as a class, because the interleavings are the point.
- LoanWorkflow.Loan.Transition: takes the read and the write of the status as one step, which `LoanConcurrency` takes apart; permissions, the stored decision record, the fraud-alert clearance before an approval and the audit trail of `decide`; settings are taken as validated and may differ at each step. Loan servicing, repayment allocation and amortization are left out.
- Database queries, routes, cryptography, machine-learning libraries, reports and user interface: input and output around the modelled logic.
