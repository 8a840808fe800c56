# A verified model of the OVK decision kernel

OVK turns many partial verification results into one merge decision, and decides which results may be
reused across revisions. These Dafny modules model that kernel and prove what it is for: a decision is never
more permissive than its evidence, a reused result is as good as a fresh one, and an identity identifies
exactly what it should.

`dafny verify dfyconfig.toml` checks everything. Each module models one component; code that changes things step
by step is a method proved against a specification function or predicate, and the theorems are lemmas about
that specification. For each operation one group of lemmas reads its answer off the inputs themselves, by text,
status, termination or field name, so that what a helper means is fixed by statements that do not mention it.

| module | component |
|---|---|
| `ContractImpact`, `Incremental`, `ImpactSurfaces` | the worklist that finds what a change of contracts invalidates, what it guarantees between two revisions, and what each reported list holds |
| `Decision`, `BundleDecision` | the checker-level lattice, the strict overlay, evidence floors, the bundle decision |
| `BackendAggregation`, `AggregationOutcomes` | fallback acceptance and the fail-dominant aggregation of backend results, and their answers read off the request |
| `BackendRegistry` | registration and the deterministic order of candidates |
| `ControlPlane`, `CacheTransparency`, `EndToEnd`, `StepOutcomes` | execution with a mutable result cache whose reads and writes may fail, whole histories of it, what their records guarantee, and what each step shows of its adapter |
| `CanonicalJson`, `CanonicalText` | the canonical JSON text, over the grammar of sections 3 to 7 of RFC 8259, and why it is that text and no other |
| `AssuranceIr`, `IrTables`, `IrIdentity`, `IrDigest` | the canonical IR payload, what it sorts and drops, what it identifies, and what its digest identifies |
| `PlanValidation` | validation of an authoritative plan before anything runs |
| `EvidenceMaterialization`, `EvidenceOutcomes`, `EffectiveCoverage` | reuse and refresh of Protected Effect evidence over a run, and what each effect gets |
| `Partitions` | the FormalPR corpus split, its membership, filters and version manifest |
| `Qualification` | rates, percentile and the production gate |
| `Ordering`, `Text`, `ExecutionModels` | Python's string order and stable sort, string methods, shared entities |

Conventions. An exception is `Raised`; its text is not modelled. What the outside answers (adapters, evaluators,
the clock, how each cache read and write goes) is a parameter that may answer anything, failure included.
SHA-256 is injective wherever a theorem needs it: an identity is then the tuple of what it digests. Integers and
rationals are exact.

Where the code departs from what one would expect of it, the code is followed. A lemma shows the input, and another
states exactly when the expectation holds:

- A second contract of a name hides a change of the first (`DuplicateNamesHideChanges`). Incremental soundness holds
  if and only if every hidden change is itself affected (`SoundnessExactly`), so always when names are unique.
- A second path of an id hides the effects of the first (`DuplicatePathsHideEffects`); `UnreportedEffect` is exact.
- A second result of a backend is never examined for fallback (`DuplicateResultsEscape`); `FallbackExactly` says of
  every weak result under ALLOW when it qualifies. In execution this cannot happen (`FallbackEndToEnd`).
- A cache write that raises turns a passing call into an error (`RefusedWriteLosesAllow`). A call is transparent if
  and only if none of its selections is spoiled in this way (`TransparentExactly`).
- The strict overlay is monotone under no policy (`StrictNeverMonotone`).
- A split surrogate pair has the text of the code point it spells (`SplitPairCollides`); two values share a text
  exactly when they are equal after sorting keys and joining pairs (`TextExactly`).
- Elements that share an id keep their order in the canonical payload (`DuplicateIdsKeepOrder`), and of two resources
  with one id only the terms of the last are kept (`RepeatedResourceLosesTerm`). `PayloadExactly` and
  `ResourcesExactly` are exact for every IR.
- A manifest built from a payload without a version string does not verify against that payload (`BuiltVerifies`).

## Model

| member | source | states |
|---|---|---|
| ContractImpact.ReverseDependencies | ovk/core/contract_impact.py:66-74 | The filled map holds, for every contract name and every listed dependency, exactly the direct dependents. |
| ContractImpact.Saturate | ovk/core/contract_impact.py:91-102 | The worklist terminates and returns a set that contains its seeds, is closed under direct dependents, and lies inside every such set. |
| ContractImpact.ContractDependencyClosure | ovk/core/contract_impact.py:77-103 | The worklist, in whatever order it visits, returns the sorted names from which a known, stripped seed is reachable along `depends_on`. |
| ContractImpact.ClosureExtensive | ovk/core/contract_impact.py:77-103 | Every known seed is in its own closure. |
| ContractImpact.ClosureIdempotent | ovk/core/contract_impact.py:77-103 | Closing a closure adds nothing. |
| ContractImpact.ClosureUnion | ovk/core/contract_impact.py:77-103 | The closure of a union of seeds is the union of the closures. |
| ContractImpact.ComputeContractImpact | ovk/core/contract_impact.py:106-143 | Contracts, uses, paths, effects and bindings reported by the loops are those that depend on the changed names in the graph. |
| ContractImpact.ComputeContractDeltaImpact | ovk/core/contract_impact.py:168-205 | The merged result is the union of the impacts of one delta over both graphs. |
| Incremental.ChangedExactly | ovk/core/contract_impact.py:146-165 | For a name that does not repeat, the delta holds the name exactly when it is not present in both revisions under one `contract_id` or absent from both. |
| Incremental.AffectedExactly | ovk/core/contract_impact.py:146-205 | A contract is affected exactly when a contract whose last version changed lies in its cone in base or in head, repeated names included. |
| Incremental.UnaffectedExactly | ovk/core/contract_impact.py:146-205 | A contract that is left out has the same cone, with unchanged members, in both revisions if and only if no hidden change lies in that cone. |
| Incremental.SoundnessExactly | ovk/core/contract_impact.py:62-205 | Every contract left out has its cone preserved if and only if every hidden change (the versions of a name differ, its last contract does not) is itself affected. |
| Incremental.PrecisionExactly | ovk/core/contract_impact.py:62-205 | No preserved contract is invalidated if and only if every merely apparent change (the last contract differs, the versions do not) has a real change in its cone. |
| Incremental.IncrementalSoundness | ovk/core/contract_impact.py:146-205 | Without a hidden change every contract left out has its cone preserved; with unique names a contract is left out if and only if its cone is preserved. |
| Incremental.HeadDecides | ovk/core/contract_impact.py:168-205 | When head resolves its references, the head impact alone decides every head contract if and only if it decides every affected hidden change; so always when nothing is hidden. |
| Incremental.HeadUnaffectedExactly | ovk/core/contract_impact.py:168-205 | A contract that a resolved head does not report has its cone preserved if and only if no hidden change lies in its head cone. |
| Incremental.PathSoundness | ovk/core/contract_impact.py:106-143 | A contract consumed by an unreported head path has its whole cone preserved from base if and only if no hidden change lies in its head cone. |
| Incremental.UnreportedEffect | ovk/core/contract_impact.py:121-143 | An effect is unreported if and only if no reported path carries it, among the paths that come last under their id. |
| Incremental.UnreportedEffectOfPath | ovk/core/contract_impact.py:121-143 | With one path under its id, an unreported effect lies on an unreported path. |
| Incremental.DuplicateNamesHideChanges | ovk/core/contract_impact.py:62-63 | With a repeated `qualified_name` a changed cone can go unreported: a concrete pair of revisions. |
| Incremental.DuplicatePathsHideEffects | ovk/core/contract_impact.py:127-134 | With a repeated `path_id` a reported path can carry an unreported effect: a concrete head. |
| ImpactSurfaces.ImpactExactly | ovk/core/contract_impact.py:106-143 | Each list of an impact, element by element: seeds are the stripped names asked for, unresolved ones are no contract, and contracts, uses, paths, effects and bindings are those that hang on a seed in the graph. |
| ImpactSurfaces.DeltaExactly | ovk/core/contract_impact.py:146-165 | Added, removed and changed names, from the contracts that come last under each name. |
| ImpactSurfaces.VisibleExactly | ovk/core/contract_impact.py:146-165 | A change is visible exactly when the delta lists the name. |
| ImpactSurfaces.MergedExactly | ovk/core/contract_impact.py:182-205 | Each of the five merged lists holds exactly what the base impact or the head impact holds. |
| ImpactSurfaces.MergedSorted | ovk/core/contract_impact.py:182-205 | The delta and the merged lists are sorted and free of duplicates. |
| ImpactSurfaces.ReportedExactly | ovk/core/contract_impact.py:168-205 | A contract, use, path, effect or binding is reported for re-verification if and only if in base or in head it hangs on a contract with a visible change in its cone. |
| Decision.AggregateDecision | ovk/core/decision.py:263-386 | The branching code computes the decision table: state, original state, recommendation, controlling ids and the contribution of every finding. |
| Decision.WorstStatus | ovk/core/decision.py:187-195 | The result occurs among the statuses and none of them is worse; none exactly for no statuses. |
| Decision.OverlayKeepsAuthority | ovk/core/decision.py:210-231 | In either mode and under any policy the overlay yields ALLOW only from ALLOW, keeps ALLOW, and never releases a BLOCK. |
| Decision.StrictNeverMonotone | ovk/core/decision.py:210-231 | Under every policy, strict mode maps some worse state to a milder one. |
| Decision.AllowExactly | ovk/core/decision.py:263-386 | ALLOW if and only if some finding is required, every required one is PASS, and no finding is FAIL. |
| Decision.BlockExactly | ovk/core/decision.py:210-386 | BLOCK if and only if a finding failed, or strict mode's policy blocks the unknown or skipped required result that decides. |
| Decision.Compositional | ovk/core/decision.py:263-386 | For lists that each hold a required finding, the original state of the concatenation is the severity join of the parts. |
| Decision.OrderIndependent | ovk/core/decision.py:263-386 | State, original state, recommendation and controlling ids depend only on which findings were reported. |
| Decision.OriginalMonotone | ovk/core/decision.py:198-386 | Worse findings never give a milder original state and never restore ALLOW. |
| Decision.OriginalExtends | ovk/core/decision.py:263-386 | Once something is required, further findings never give a milder original state. |
| Decision.OriginalExactly | ovk/core/decision.py:263-386 | Each of the six original states, exactly, by the statuses and required flags of the findings. |
| Decision.OverlayExactly | ovk/core/decision.py:210-231 | Advisory mode keeps the original state; strict mode changes only a required UNKNOWN, to BLOCK when `default_on_unknown` is "block" and else to a review, and a required skip, to BLOCK when the skip policy blocks. |
| Decision.SkipBlocksExactly | ovk/core/decision.py:145-149 | The skip policy blocks exactly when its stripped text spells "block" in any case. |
| Decision.RecommendationExactly | ovk/core/decision.py:51-58 | The recommendation merges on ALLOW only, blocks on BLOCK only, and asks for a human otherwise. |
| Decision.ControllersExactly | ovk/core/decision.py:263-386 | An id controls exactly when a finding of that id is a failure behind a BLOCK, or a required one with the status that decided. |
| Decision.ContributionsExactly | ovk/core/decision.py:234-260 | One row per finding, in order: controlling, warned optional non-pass under ALLOW, supporting pass, or neither. |
| BundleDecision.FindingsFromBundle | ovk/core/decision.py:172-184 | The nested loops list the claims of the records in order. |
| BundleDecision.FindingsAre | ovk/core/decision.py:172-184 | A finding of the bundle is a claim of one of its records under the id of record and backend, and conversely. |
| BundleDecision.AggregateBundleDecision | ovk/core/decision.py:427-502 | The method returns the claim outcome restricted by the evidence floors. |
| BundleDecision.ApplyRestrictions | ovk/core/decision.py:449-502 | The claim outcome stands unless some floor is strictly worse; then state, original state, recommendation and controlling ids are those of the records with the worst floor. |
| BundleDecision.BundleIsJoin | ovk/core/decision.py:427-502 | The bundle decision is at most a bound exactly when the claim outcome and every record's effective floor are, in both modes and under every policy string: it is their maximum. |
| BundleDecision.BundleAllowExactly | ovk/core/decision.py:389-502 | ALLOW if and only if the claims allow and every record's raw decision is ALLOW. |
| BundleDecision.BundleOrderIndependent | ovk/core/decision.py:427-502 | Permuting or repeating evidence changes nothing but the order of contributions. |
| BundleDecision.FloorBelowRawExactly | ovk/core/decision.py:411-424 | A floor ranks below its raw state exactly for an UNKNOWN in strict mode without a blocking policy. |
| BundleDecision.FloorExactly | ovk/core/decision.py:389-424 | The floor of a record, by the text it carries: allow, block, error, unknown and skipped as said and as policy reads them, anything else a review. |
| BundleDecision.BundleExactly | ovk/core/decision.py:427-502 | The bundle decision is the state that the claims or some record call for while none calls for a worse one. |
| BundleDecision.RecordBinds | ovk/core/decision.py:389-502 | For every record: ALLOW only if it says "allow"; "block" means BLOCK, and "error", "unknown" and "skipped" bound the decision from below. |
| BundleDecision.StateWinsOverRecommendation | ovk/core/decision.py:389-408 | With a `decision_state`, the `merge_recommendation` does not enter the floor. |
| BundleDecision.BundleAttribution | ovk/core/decision.py:449-502 | Either the claims decide and their outcome stands, or the records that call for the decided state control it, name it, and report the worst original state. |
| BundleDecision.BundleRecommendation | ovk/core/decision.py:449-502 | The recommendation of a bundle merges on ALLOW only and blocks on BLOCK only. |
| BackendAggregation.EvaluateFallbackAcceptance | ovk/core/backend_aggregation.py:84-129 | Fallback is used exactly when some selection needs it, accepted exactly when every needing selection qualifies, with the cause of the first failing or last needing one. |
| BackendAggregation.VerdictUnique | ovk/core/backend_aggregation.py:84-129 | That description leaves one verdict per request. |
| BackendAggregation.AggregateFailDominant | ovk/core/backend_aggregation.py:158-339 | The branching code yields the aggregation determined by the request and its verdict. |
| BackendAggregation.RequiredAreExecuted | ovk/core/backend_aggregation.py:198-230 | When selected and executed sets agree, a required selection has a required result: the exit for its absence is unreachable. |
| BackendAggregation.DecisionTable | ovk/core/backend_aggregation.py:198-339 | The decision state, status and quality flag are those of a table over selections and results: set mismatch, guarantee gate, then the lattice. |
| BackendAggregation.AllowExactly | ovk/core/backend_aggregation.py:158-339 | ALLOW if and only if the sets agree, some selection is required, nothing failed, and every required result passed with a guarantee that is acceptable, unrestricted or covered by an accepted fallback. |
| BackendAggregation.BlockExactly | ovk/core/backend_aggregation.py:257-339 | BLOCK if and only if the sets agree, some result failed, and the guarantee gate did not fire. |
| BackendAggregation.FallbackExactly | ovk/core/backend_aggregation.py:84-129 | Under ALLOW with restricted guarantees, for any weak required result: if the first result of its backend is weak too, it qualifies if and only if its own guarantee is listed; otherwise, being unexamined, if and only if its attempt ended well and both its backend and guarantee are listed. |
| BackendAggregation.FallbackSound | ovk/core/backend_aggregation.py:84-129 | Under ALLOW a weak required result whose guarantee is that of its backend's first result qualified as a fallback on its own. |
| BackendAggregation.FallbackSoundWhenDistinct | ovk/core/backend_aggregation.py:84-129 | With one result per backend every weak required result under ALLOW qualified. |
| BackendAggregation.VerdictReadsFirst | ovk/core/backend_aggregation.py:104-108 | Results behind the first of their backend leave the fallback verdict as it is. |
| BackendAggregation.DuplicateResultsEscape | ovk/core/backend_aggregation.py:104-108 | With two results of one backend only the first is examined: a request that allows although the second is unqualified. |
| BackendAggregation.AggregationView | ovk/core/backend_aggregation.py:158-339 | Aggregation does not depend on attempt ids nor on the `required` flags stored in attempts. |
| AggregationOutcomes.QualifiesExactly | ovk/core/backend_aggregation.py:28-35 | A fallback qualifies only if it completed, was cancelled, or missed its tool where `on_tool_unavailable` is neither fail nor error, under an allowing policy that lists its backend and guarantee or lists none. |
| AggregationOutcomes.OutcomeExactly | ovk/core/execution_models.py:287-295 | Four terminations have the outcome configured for them; the others are unknown. |
| AggregationOutcomes.FirstResultExactly | ovk/core/backend_aggregation.py:104 | The examined result is the first of its backend. |
| AggregationOutcomes.LastAttemptExactly | ovk/core/backend_aggregation.py:97-105 | The examined attempt is the last of its backend. |
| AggregationOutcomes.VerdictExactly | ovk/core/backend_aggregation.py:84-129 | Fallback is used when a required selection passed with an unacceptable guarantee, accepted when all of these qualify, with the cause of the last one or of the first that does not. |
| AggregationOutcomes.BlockedEndNeverAllows | ovk/core/backend_aggregation.py:116-117 | A weak selection that ended in timeout, tool error, invalid output or exhausted resources never gives ALLOW, under any policy. |
| AggregationOutcomes.WeakEndUnderAllow | ovk/core/backend_aggregation.py:84-129 | Under ALLOW, an examined weak result ended completed, cancelled or without its tool, and the policy allows that. |
| AggregationOutcomes.StateExactly | ovk/core/backend_aggregation.py:198-339 | Each decision state and the quality error, exactly, by which backends answered, what they reported and which guarantees nothing covers. |
| AggregationOutcomes.RecordedExactly | ovk/core/backend_aggregation.py:305-339 | Status, original state, recommendation and recorded fallback, each exactly. |
| AggregationOutcomes.ControllersExactly | ovk/core/backend_aggregation.py:232-339 | The controlling ids, each the obligation id and a backend whose result decided. |
| BackendRegistry.Registry.Register | ovk/core/backend_registry.py:63-101 | A registration succeeds exactly for an admissible adapter with a new backend and a new identity; otherwise the registry is left as it was. |
| BackendRegistry.RunConsistent | ovk/core/backend_registry.py:58-101 | After any run of accepted and rejected registrations the order lists the registered backends once each, identities are distinct and recorded. |
| BackendRegistry.Registry.Candidates | ovk/core/backend_registry.py:122-142 | Raises exactly when some adapter raises or answers for another backend; otherwise returns the assessments of all adapters by descending score, then backend. |
| BackendRegistry.ArrangementUnique | ovk/core/backend_registry.py:122-142 | There is one such arrangement, so the answer is independent of registration order. |
| BackendRegistry.AcceptsExactly | ovk/core/backend_registry.py:63-101 | An adapter is acceptable exactly with three non-blank ids, a new backend and identity, the required methods, and a schema-valid manifest of its own adapter and version with a guarantee, domains and property kinds. |
| BackendRegistry.RunOrigin | ovk/core/backend_registry.py:63-101 | The adapter of a backend is one that was offered and acceptable at that moment. |
| BackendRegistry.AcceptedStays | ovk/core/backend_registry.py:63-101 | An adapter that was acceptable when offered stays registered over the rest of the run. |
| BackendRegistry.RunKeeps | ovk/core/backend_registry.py:63-101 | A run replaces no adapter and only appends to the order. |
| BackendRegistry.ArrangedExactly | ovk/core/backend_registry.py:122-142 | Candidates come by descending score, then by backend, without repetition. |
| ControlPlane.ResultCache.Get | ovk/core/result_cache.py:254-326 | A delivered entry is the one stored under the key; an outdated or invalid one is removed, an unreadable one is a miss and stays, and a read may raise. |
| ControlPlane.ResultCache.Put | ovk/core/result_cache.py:233-252 | The entry of the key is replaced and no other; a write that raises stores nothing and may lose the old entry. |
| ControlPlane.BackendControlPlane.ExecuteOne | ovk/core/backend_control_plane.py:276-405 | Whatever stage raises, cache reads and writes included, the method yields the step of its selection and leaves the entries that step leaves. |
| ControlPlane.BackendControlPlane.ExecuteAll | ovk/core/backend_control_plane.py:213-228 | The loop runs the selections in order, each on the entries the previous one left. |
| ControlPlane.BackendControlPlane.Execute | ovk/core/backend_control_plane.py:196-274 | The record holds the sorted attempts, results and compiled obligations of those steps and their aggregation; only an aggregation policy other than `ovk.aggregate.fail_dominant.v1` raises. |
| CacheTransparency.KeyDeterminesRun | ovk/core/result_cache.py:121-150 | Calls with equal cache keys run equally: the key components determine compiled obligation, adapter and run. |
| CacheTransparency.StepTransparent | ovk/core/backend_control_plane.py:329-379 | Through a sound cache a selection yields what it yields without one if and only if it is not spoiled (the cache raised and the run would not have failed anyway), else the handler's error; the cache stays sound: every entry equals a fresh run under its key. |
| CacheTransparency.RefusedWriteErrs | ovk/core/backend_control_plane.py:355-405 | A passing run that is not found and cannot be stored is recorded as an error. |
| CacheTransparency.CallTransparent | ovk/core/backend_control_plane.py:196-274 | So for a whole call: all its steps show what they show without a cache if and only if none is spoiled. |
| CacheTransparency.ExecuteHistory | ovk/core/backend_control_plane.py:196-274 | Calls made one after the other on one cache leave the records and entries of the history. |
| CacheTransparency.HistorySound | ovk/core/backend_control_plane.py:329-379 | Over any history, however its reads and writes fail, every entry equals a fresh run under its key. |
| CacheTransparency.HistoryTransparent | ovk/core/backend_control_plane.py:196-379 | In any history from an empty cache each call shows the steps of cache-free execution if and only if none of its selections is spoiled; spoiled steps are the handler's errors. |
| CacheTransparency.CacheTransparent | ovk/core/backend_control_plane.py:196-274 | An unspoiled call of a history from an empty cache has the aggregation, obligations, statuses, guarantees and terminations of cache-free execution. |
| EndToEnd.OneAttemptOneResult | ovk/core/backend_control_plane.py:214-231 | A record holds one attempt and one result per selection, with matching attempt ids. |
| EndToEnd.CachedPaired | ovk/core/backend_control_plane.py:288-405 | Whatever raises or hits, each attempt and its result carry one attempt id. |
| EndToEnd.SelectedAreExecuted | ovk/core/backend_aggregation.py:198-212 | With adapters that label outputs by their backend, executed backends are the selected ones. |
| EndToEnd.TransparentExactly | ovk/core/backend_control_plane.py:196-379 | The record of a call shows the attempts and results of its cache-free record if and only if none of its selections is spoiled, and then it decides the same. |
| EndToEnd.AllowEndToEnd | ovk/core/backend_control_plane.py:196-405 | In any history, no call reports a quality error, and a call that allows had a required selection, PASS from all required backends, and no FAIL. |
| EndToEnd.FallbackEndToEnd | ovk/core/backend_control_plane.py:233-243 | In any history, a call that allows under restricted guarantees holds, for each required result outside them, the attempt that qualifies it as a fallback, however often its backend was selected: completed, cancelled, or without its tool where the policy tolerates that. |
| EndToEnd.RefusedWriteLosesAllow | ovk/core/backend_control_plane.py:355-405 | A call that allows without a cache ends in ERROR when its cache write raises: a concrete adapter and call. |
| StepOutcomes.StepExactly | ovk/core/backend_control_plane.py:288-405 | A step, in three cases: a compiler that breaks its contract gives UNKNOWN and runs nothing; where every stage returns, the step is what the adapter reported; otherwise it is an error. |
| StepOutcomes.RaisingIsError | ovk/core/backend_control_plane.py:380-405 | If compiling, fingerprinting, running or normalizing raises, the step shows ERROR and `tool_error` under the selection's backend, flag and expected guarantee. |
| StepOutcomes.UnknownBackendIsError | ovk/core/backend_control_plane.py:290-295 | So does a backend that is not registered or registered under another identity. |
| StepOutcomes.HandledIsError | ovk/core/backend_control_plane.py:380-405 | So does every step that the exception handler records. |
| StepOutcomes.AttemptIdentifies | ovk/core/backend_control_plane.py:152-171 | The attempt id holds exactly the content of its attempt. |
| StepOutcomes.KeyExactly | ovk/core/result_cache.py:121-150 | Two cache keys are equal if and only if every component of identity is. |
| StepOutcomes.EntriesExactly | ovk/core/backend_control_plane.py:329-379 | A step changes only the entry of its own key: a finished run with an envelope that was not answered and was written replaces it, and only a removed file or a destructive write loses it. |
| StepOutcomes.StoredIsReturned | ovk/core/backend_control_plane.py:341-349 | What one selection stored is what the next reader of the key gets, without running anything. |
| StepOutcomes.OrderedExactly | ovk/core/backend_control_plane.py:213 | Selections run required first, then by backend, each once. |
| StepOutcomes.RecordSorted | ovk/core/backend_control_plane.py:229-231 | The lists of a record are sorted by backend, and its backend obligations are what the compilers returned. |
| StepOutcomes.AllowRan | ovk/core/backend_control_plane.py:196-405 | In any history, when a call allows, every required backend compiled, fingerprinted, ran and normalized to PASS, and the record holds that run's end and guarantee under one attempt id. |
| CanonicalJson.RejectsExactly | ovk/core/bundle.py:26-34 | A value is rejected if and only if a non-finite number stands at some path in it. |
| CanonicalJson.QuoteExactly | ovk/core/bundle.py:37-39 | Two strings have one text if and only if they have the same UTF-16 units. |
| CanonicalJson.SplitPairCollides | ovk/core/bundle.py:37-39 | A split surrogate pair and the code point it spells are different strings with one text. |
| CanonicalJson.ParseInverse | ovk/core/bundle.py:37-39 | A decoder reads every emitted value back, whatever text follows: the value with split surrogate pairs joined. |
| CanonicalJson.SortKeysExactly | ovk/core/bundle.py:37-39 | Sorting keys at every level is a normal form for equality up to member order. |
| CanonicalJson.DecodeEncode | ovk/core/bundle.py:37-39 | Decoding a canonical text returns the value with sorted keys and joined pairs. |
| CanonicalJson.TextExactly | ovk/core/bundle.py:3-44 | Two values have the same canonical text if and only if they are equal once keys are sorted and split pairs joined. |
| CanonicalJson.UnicodeTextExactly | ovk/core/bundle.py:3-44 | On well-formed Unicode, if and only if they are equal up to object key order. |
| CanonicalText.UnitText | ovk/core/bundle.py:37-39 | The text of a 16-bit unit is the one shortest printable text that reads back as it: the two-character escapes, the printable characters themselves, else four lower-case hexadecimal digits. |
| CanonicalText.CanonicalIsShortest | ovk/core/bundle.py:37-39 | The canonical text is printable ASCII, and of all such texts that say the value with its members in that order it is the one shortest: no spaces, no longer escape, no leading zero. |
| CanonicalText.KeysAscend | ovk/core/bundle.py:37-39 | Members stand in ascending order of keys, code point by code point. |
| AssuranceIr.CanonicalPayload | ovk/core/assurance_ir.py:1015-1141 | The loops that sort, resolve resource terms and drop in place yield the canonical form, collection by collection. |
| IrTables.TablesExactly | ovk/core/assurance_ir.py:1019-1141 | The twenty id-keyed collections, the seven that are dropped when empty, and the three coverage lists, by name. |
| IrTables.ItemExactly | ovk/core/assurance_ir.py:1064-1119 | Each list of an element: the named ones sorted, predicates by digest, empty control points dropped, everything else kept. |
| IrTables.ReorderingExactly | ovk/core/assurance_ir.py:1064-1119 | Reordering a list leaves the canonical element alone if and only if the list is one of the named ones. |
| IrTables.CollectionExactly | ovk/core/assurance_ir.py:1041-1141 | A collection keeps all its canonical elements in id order, and is dropped exactly when it is additive and empty. |
| IrTables.CoverageExactly | ovk/core/assurance_ir.py:1059-1061 | The three coverage lists keep their entries, sorted. |
| IrTables.ResolvedExactly | ovk/core/assurance_ir.py:1044-1057 | A resource takes the stated terms of the last resource of its id, and keeps its own where that has none. |
| IrIdentity.CanonicalItemExactly | ovk/core/assurance_ir.py:1064-1119 | Two elements have one canonical form if and only if they agree up to the order inside the sorted lists. |
| IrIdentity.CanonicalCollectionExactly | ovk/core/assurance_ir.py:1041-1119 | Two collections have one canonical form if and only if, for every id, their elements of that id agree one by one up to the order inside sorted lists. |
| IrIdentity.PayloadExactly | ovk/core/assurance_ir.py:1015-1141 | For all IRs, repeated ids included, the payloads are equal if and only if the elements of every id agree in order, resource terms resolved, and coverage lists are reorderings; dropping empty extensions loses nothing. |
| IrIdentity.ResourcesExactly | ovk/core/assurance_ir.py:1044-1057 | Resolved resources keep, for every id, the elements in order without their terms, the terms of the last, and what that last resource leaves open of the others. |
| IrIdentity.UniquePayloadExactly | ovk/core/assurance_ir.py:1015-1141 | With unique ids, two IRs have equal payloads if and only if they differ by reordering collections and sorted lists. |
| IrIdentity.DuplicateIdsKeepOrder | ovk/core/assurance_ir.py:1041-1042 | Two elements with one id keep their order, so reordering them changes the payload. |
| IrIdentity.RepeatedResourceLosesTerm | ovk/core/assurance_ir.py:1044-1057 | Of two resources with one id only the terms of the last reach the payload: two different collections with one canonical form. |
| IrDigest.NormalPayload | ovk/core/assurance_ir.py:1143-1147 | What the text of a payload says is the payload with the split pairs in its free-form fields joined. |
| IrDigest.IdentityExactly | ovk/core/assurance_ir.py:1143-1147 | Two IRs have the same identity text, hence the same digest, if and only if they mean the same once split pairs are joined. |
| PlanValidation.ValidateRoute | ovk/core/authoritative_runtime.py:45-86 | Accepts exactly a route that names its obligation and policy, selects no backend twice, and selects only requested, eligible, unrejected backends with their eligible guarantee. |
| PlanValidation.ValidateInstance | ovk/core/authoritative_runtime.py:100-127 | Accepts exactly an instance present in all three maps whose intent, subject and route match. |
| PlanValidation.ValidateAuthoritativePlan | ovk/core/authoritative_runtime.py:89-145 | Accepts if and only if instance keys are distinct, are the key set of all three plan maps, and every production obligation's instance matches. |
| PlanValidation.AcceptedBijection | ovk/core/authoritative_runtime.py:89-145 | An accepted plan has as many entries as production obligations, and each entry belongs to exactly one. |
| PlanValidation.IntentExactly | ovk/core/routing_pipeline.py:40-51 | The five production lanes, and the intent of each when the obligation names none. |
| PlanValidation.EligibleExactly | ovk/core/authoritative_runtime.py:62 | The candidate looked up for a backend is the last of that backend. |
| PlanValidation.RouteExactly | ovk/core/authoritative_runtime.py:45-86 | A route is accepted if and only if it names its obligation and policy, selects no backend twice, and each selection is requested, unrejected, and expects the guarantee of the last eligible candidate of its backend. |
| PlanValidation.PlanExactly | ovk/core/authoritative_runtime.py:89-145 | A plan is accepted if and only if production obligations have different instances, every instance in any map is one of theirs, and each obligation checks out. |
| EvidenceMaterialization.EvidenceCache.Put | ovk/core/protected_effect_evidence.py:867-905 | Only evidence that would be reusable is written, under its own key; a refusal writes nothing. |
| EvidenceMaterialization.EvidenceCache.ReuseForHead | ovk/core/protected_effect_evidence.py:907-962 | Returns reissued evidence exactly when the entry of the key is an eligible PASS of the same slice, policy and runtime. |
| EvidenceMaterialization.LookUp | ovk/core/automatic_pr_assurance.py:401-434 | Every effect in id order is either reused or listed as fresh. |
| EvidenceMaterialization.Materialize | ovk/core/automatic_pr_assurance.py:386-503 | The loops and cache writes compute the specified outcome: evidence, id lists, entries left behind, and when it raises. |
| EvidenceMaterialization.EveryEffectCovered | ovk/core/automatic_pr_assurance.py:486-493 | A call that gets that far covers every effect: the closing comparison cannot fail. |
| EvidenceMaterialization.OneItemPerEffect | ovk/core/automatic_pr_assurance.py:399-503 | With unique effect ids, one evidence item per effect in id order, and fresh and reused ids partition the effects. |
| EvidenceMaterialization.RunTraced | ovk/core/automatic_pr_assurance.py:436-484 | Across any run from an empty cache each entry traces to a passing evaluation of the run with its runtime. |
| EvidenceMaterialization.ReusedTraces | ovk/core/automatic_pr_assurance.py:399-503 | Every reused item was reissued from an earlier call's passing evaluation of the same effect, slice, policy and runtime. |
| EvidenceOutcomes.KeyExactly | ovk/core/protected_effect_evidence.py:708-737 | Keys agree if and only if repository, effect, slice, policy and runtime do; no revision enters. |
| EvidenceOutcomes.ReuseExactly | ovk/core/protected_effect_evidence.py:907-962 | An effect is reused if and only if the cache holds a PASS for its slice, policy and runtime that is still valid, and it then gets that PASS reissued. |
| EvidenceOutcomes.FreshExactly | ovk/core/automatic_pr_assurance.py:404-428 | Which effects are fresh and which reused, each list in id order. |
| EvidenceOutcomes.LastEvaluation | ovk/core/automatic_pr_assurance.py:435-438 | Of several evaluations of an effect the last counts. |
| EvidenceOutcomes.EvidenceExactly | ovk/core/protected_effect_evidence.py:348-400 | Evidence is refused unless it is about this IR, one of its effects and some policy, and claims what was evaluated. |
| EvidenceOutcomes.OutcomeExactly | ovk/core/automatic_pr_assurance.py:429-466 | A call returns if and only if the evaluator answers for exactly the fresh effects with usable evaluations, and then each effect has its reissued PASS or the evidence of its last evaluation. |
| EvidenceOutcomes.EntriesExactly | ovk/core/automatic_pr_assurance.py:467-485 | What a call leaves in the cache, key by key, also when an exception ends the loop: the evidence of the reached effect that stores under the key, else what was there. |
| EvidenceOutcomes.ReusedStillValid | ovk/core/automatic_pr_assurance.py:409-424 | What a call of a run reuses is a PASS that is valid in that call, for the same slice, policy and runtime. |
| EffectiveCoverage.EffectiveCoverageStatuses | ovk/core/automatic_pr_assurance.py:125-156 | Succeeds exactly when every item carries a non-blank identity and status and no two stripped identities are equal; then each effect has its item's stripped status, and no other is filed. |
| Partitions.AssignPartitions | scripts/generate_formalpr_provenance.py:196-243 | Refuses exactly when a held-out case is a template-dev case or the held-out list repeats a corpus case; otherwise each part is the sorted set of the cases placed there by a case-by-case rule. |
| Partitions.Finish | scripts/generate_formalpr_provenance.py:226-243 | The repair of missing cases and the overlap and coverage exits, for any four lists. |
| Partitions.PartitionMembership | benchmarks/formal_pr_bench/provenance_kit.py:91-103 | Raises exactly when a listed case repeats; otherwise each listed case maps to the part that lists it. |
| Partitions.MembershipInverts | benchmarks/formal_pr_bench/provenance_kit.py:91-103 | An assigned split lists every case once, its held-out part avoids template-dev, and membership recovers the placement of every case. |
| Partitions.PlacesExactly | scripts/generate_formalpr_provenance.py:196-225 | The part of each case by held-out list, preference, template-dev registry, category and the suffix of second variants. |
| Partitions.AssignableExactly | scripts/generate_formalpr_provenance.py:196-243 | An assignment is refused exactly when a held-out corpus case is a template-dev case or is listed twice. |
| Partitions.AssertNoTemplateDevContamination | benchmarks/formal_pr_bench/provenance_kit.py:106-135 | Raises exactly when a held-out case is a template-dev case, or a case scored as held-out is one. |
| Partitions.FilterCasesForPartition | benchmarks/formal_pr_bench/provenance_kit.py:174-190 | Refuses exactly for an unknown part, a repeated case or a contaminated held-out part; otherwise returns the listed cases in order. |
| Partitions.FiltersSplit | benchmarks/formal_pr_bench/provenance_kit.py:174-190 | The four filters of an assigned corpus split any list of its cases without loss or double counting. |
| Partitions.VerifyManifestDigests | benchmarks/formal_pr_bench/provenance_kit.py:146-171 | Accepts exactly when all four part digests, the version and the corpus digest match. |
| Partitions.ManifestExactly | benchmarks/formal_pr_bench/provenance_kit.py:146-211 | A manifest built for one payload verifies against another if and only if every part is a reordering and the version is the recorded string. |
| Partitions.BuiltVerifies | benchmarks/formal_pr_bench/provenance_kit.py:146-211 | A built manifest verifies against its own payload if and only if `benchmark_version` is a present string. |
| Partitions.VersionExactly | benchmarks/formal_pr_bench/provenance_kit.py:193-211 | The version a manifest records: "v1" without a key, "None" for a null, else the text. |
| Partitions.OnlyBuiltVerifies | benchmarks/formal_pr_bench/provenance_kit.py:146-211 | Against a payload with a version string, exactly the manifest built for it verifies: version, every part's digest and the corpus digest. |
| Qualification.RateBelow | ovk/core/assurance_qualification.py:456-459 | Comparing a rate with a threshold is comparing counts; a missing rate fails both ways. |
| Qualification.PercentileExactly | ovk/core/assurance_qualification.py:462-467 | The percentile is the one element with at least fraction of the values at or below it and fewer strictly below; at or below zero the minimum, above one an error. |
| Qualification.GroupByRepository | ovk/core/assurance_qualification.py:492-494 | The grouping loop gives each repository its external results in order. |
| Qualification.QualificationStatus | ovk/core/assurance_qualification.py:470-582 | The reasons are exactly those whose condition on the external results holds, the gate opens exactly without reasons, and the status follows. |
| Qualification.CountsExactly | ovk/core/assurance_qualification.py:476-524 | The external, complete, unsafe, detected, safe and open counts, taken over all results by their fields. |
| Qualification.ReasonsExactly | ovk/core/assurance_qualification.py:476-566 | Each reason, exactly, by those counts and its threshold. |
| Qualification.AdjudicationExactly | ovk/core/assurance_qualification.py:496-509 | A repository is reported with its count exactly when fewer of its external cases than the minimum are adjudicated. |
| Qualification.GateExactly | ovk/core/assurance_qualification.py:470-582 | The gate opens exactly on enough repositories, enough adjudicated cases in each, all unsafe cases detected and both thresholds met on non-empty samples. |
| Qualification.GateAdjudicated | ovk/core/assurance_qualification.py:500-566 | An open gate rests on at least repositories times cases human-adjudicated external cases. |
| Qualification.DefaultGate | ovk/core/assurance_qualification.py:470-475 | With the default minimums that is sixty. |
| Qualification.ScoreExactly | ovk/core/assurance_qualification.py:397-450 | A head is established exactly when assurance is available and every status, of at least one, is "established"; false assurance and benign openness follow from the label. |
| Qualification.OutcomesConserved | ovk/core/assurance_qualification.py:640-719 | Unsafe cases are falsely assured, detected or unavailable, safe ones open or established, and the counts add up. |
| Qualification.NoUnsafeEstablished | ovk/core/assurance_qualification.py:403-414 | On harness results an open gate means every external unsafe case was evaluated and left unestablished, and the false-assurance check never decides alone. |

## Left out

- Reason strings, warnings, error texts and disagreement artifacts; the exit that each decision takes is modelled through its state and flags only, so two exits with the same outcome are one.
- Timestamps, durations and other timing fields of attempts and results, and the attempt-id fields that hold them.
- Parallel execution and the incremental `execute` of heads beyond evidence reuse; only the sequential path is modelled.
- ControlPlane.ResultCache.Get: which test a file fails (age, stored key, payload digest, schema) is one answer of the read, "removed" or "unreadable"; directory layout, concurrent writers and locking are not modelled.
- Routing, compilers, adapters and solvers are functions that may answer or fail in any way.
- `instance_key` is an uninterpreted function of the raw obligation, and typed obligations are compared by the fields that validation reads.
- The fallback policy check of the authoritative runtime (ovk/core/authoritative_runtime.py:148-171), single-branch field tests.
- `make_bundle` and evidence digests beyond `content_digest`: field copying around the canonical text.
- JSON values outside the encoder's documented domain: non-string keys, `default=str` objects, and integers of more than 4300 digits. A finite float is identified with its `repr` text.
- AssuranceIr.CanonicalPayload: scalar fields and the control-flow node ids of guards, which are only put in key order, are one `rest` value per element, dictionaries have no order, and contract predicates are their canonical texts.
- IrDigest.IdentityExactly: the parts of an element stand under separate keys of its JSON object, where the dump holds its fields side by side, and predicates are strings.
- ControlPlane.BackendControlPlane.ExecuteAll: the three lists of the source are one list of steps.
- ControlPlane.BackendControlPlane.Execute: the record's list of open obligations, which repeats the disagreement, the quality error and the warnings of the aggregation as texts, is not part of the record.
- EvidenceMaterialization.EvidenceCache.Put: signature, age and revocation of evidence are one answer of the call.
- EvidenceMaterialization.EvidenceCache.ReuseForHead: signature, age and revocation of evidence are one answer of the call.
- EvidenceMaterialization.Materialize: evaluation, sealing and signing are a function of the effect ids, so tampering with stored evidence is the `stillValid` answer of the call.
- Partitions.VerifyManifestDigests: version values other than strings are compared by identity, so Python's `1 == True` is not modelled; an empty payload, which the source replaces by the file on disk, is not modelled.
- Qualification.QualificationStatus: rates are exact quotients instead of rounded floats, and reasons are a set rather than their sorted texts.
- Qualification.PercentileExactly: `fraction * n` is exact, so a product that a float rounds across an integer is not modelled; neither is NaN.
- The remaining report metrics (latency median, human minutes, reuse rate) are quotients and sums of the same counts.
- Command line, MCP server, Markdown and badge output, git, GitHub and packaging code.
