# A verified model of the agent swarm's coordination core

The repository runs a swarm of agents that read documents into facts, check the facts for drift and
contradictions, propagate evidence and advance a shared state graph under governance. This project
models its coordination logic in Dafny 4.11 and proves what that logic guarantees over every input,
every run and every interleaving.

## What is modelled

- **The state graph** (`StateGraph`, `EpochRuns`, `EpochSafety`, `EpochTheorems`, `EpochGovernance`,
  `EpochStamps`, `ScopeProcesses`). One scope's row, its audit events, and every process that touches
  them: agents that propose, governance that approves or parks, humans that approve, executors that
  read, check, compare-and-swap and announce, and resets that put the epoch back to zero. Every stretch
  between two awaits is one step, messages are never consumed, and steps of any number of processes
  interleave freely. The compare-and-swap tests the epoch alone, so a reset between a read and a commit
  is an ABA pattern. It is harmless exactly when all inits and resets start at one node, because the
  node is then a function of the epoch. The policy and the drift text are loaded anew for each action;
  `EpochGovernance` says which commits they allowed. `EpochStamps` follows the run id of an action from
  the proposal or approval that stamped it to its commit. `ScopeProcesses` gives the same processes in
  sequential form and ties them to the interleaved one.
- **The causal DAG** (`CausalDag`, `CausalRuns`). Content-addressed contributions, the frontier, the
  depth-first cone walk with its `seen` set and `out` list, and concurrent emits that read the frontier
  and later insert a row or fail.
- **The hatchery** (`Hatchery`, `HatcheryRuns`, `RestartRuns`, `GovernanceCount`, `SlidingWindow`).
  Spawning, draining, crash restarts, pausing, shutdown and resuming, interleaved at the awaits, with
  the late hand-over of restart histories; the sliding windows of restart intensity and arrival rate;
  the worker count.
- **Facts sync** (`FactsSpec`, `FactsSync`, `FactsPhases`, `FactsNodes`, `FactsMatching`,
  `FactsReferences`, `FactsRuns`, `FactsReopened`, `FactsOverlap`, `TextOverlap`). `FactsSync` runs one
  sync with all its phases and branches and computes exactly `FactsSpec.SyncedGraph`; `FactsPhases` and
  `FactsNodes` say what that graph is, node by node, in terms of the batch; `FactsMatching` and
  `FactsReferences` say which node an item goes to, in terms of the rows found and the lookups' answers;
  `FactsRuns` is about sequences of syncs between which other processes resolve, merge and add nodes,
  `FactsReopened` shows one that goes wrong, `FactsOverlap` is about syncs that overlap.
  Canonicalisation, pair keys, resolution lookups, the order of rows created at the same time and the
  choice of a query with `LIMIT 1` are parameters. Only the functions that compute keys are fixed for a
  sequence; what the database and the settings answer may be different in each sync. The fuzzy matcher
  and the overlap score are modelled on their own.
- **Values** (`NumberWords`, `Amounts`). The number-word parser against English spelling, and the
  compact-amount formatter with the rounding of section 21.1.3.3 of ECMA-262.
- **Streams, breaker, scores** (`Utf8`, `SseProxy`, `CircuitBreaker`, `Cosine`). The block splitter of
  the event-stream proxy down to the bytes it receives, the circuit breaker on a clock, cosine
  similarity.
- **Evidence** (`Evidence`, `Observation`, `Observers`, `Propagation`, `EnergyIdentity`, `EnergyEdges`).
  The flat layout, the edge list, observed dimensions, and the identity between Dirichlet energy and
  disagreement.

`Options`, `Sets`, `Sequences` and `RealArithmetic` hold small helpers.

## Properties that fail, and where code and documentation disagree

The model follows the code. Each failure has a witness and, where it is not a single input, its exact
condition.

- `src/factsToSemanticGraph.ts:293` calls resolution irreversible. A resolved contradiction is reopened
  exactly when an extracted string refers to it and the resolved checks do not recognise that string
  (`FactsRuns.ResolvedStaysExactly`, `FactsRuns.SameKeyReopensExactly`). There are three checks: equal
  pair keys, a content overlap of at least 0.55, and an embedding similarity of at least 0.7. The first
  computes the resolved keys on lowercased text while the NLI pattern is case-sensitive, so it misses a
  swapped NLI string; the second still catches it if it has a word of more than three characters
  (`FactsRuns.SameWordsProtect`), and the third may. Where all words are short and no embedding is
  available the contradiction is reopened (`FactsReopened.SwappedNliReopens`).
- `src/hatchery.ts:457-461` and `docs/architecture.md:923` limit restarts to `maxRestarts` in a window.
  A successor gets the history of its predecessor only after the awaited log write of its spawn
  (`src/hatchery.ts:387-390`, `src/hatchery.ts:484-487`). Agents that exit before that are restarted
  without limit (`RestartRuns.CrashLoop`, `RestartRuns.RestartLimitExactly`).
- `src/hatchery.ts:133` counts the governance agents. An exit does not lower the count
  (`src/hatchery.ts:437-451`), and a drain that ends for an agent already gone does
  (`GovernanceCount.CrashLeavesCount`, `GovernanceCount.CountIsRightExactly`).
- `src/agents/governanceAgent.ts:861-910` stamps an action with a run id that no executor compares. The
  action commits in another run exactly when a run was started in between
  (`EpochTheorems.StaleRunCommits`, `EpochStamps.StampExactly`).
- `src/actionExecutor.ts:301-310` re-checks governance for every action no human approved. A drift text
  that parses to `null`, `0`, `false` or an empty string makes it skip the check, on every edge and
  under every policy (`EpochGovernance.FalsyDriftSkipsGovernance`). Every commit is human or allowed
  exactly if no such text can be loaded or no policy in use refuses an edge under every report
  (`EpochGovernance.AlwaysGovernedExactly`). The repository's own writer always stores an object
  (`src/agents/driftAgent.ts:94-98`), so such a text has to come from outside.
- `src/resilience.ts:74` says the half-open breaker allows one attempt. It allows as many failing calls
  as a new breaker, and a new breaker gets there (`CircuitBreaker.ProbeReopensExactly`,
  `CircuitBreaker.HalfOpenFromNew`).
- `src/factsToSemanticGraph.ts:646` keeps one node for each pair key. That holds over sequences of syncs
  (`FactsRuns.PairKeysStayDistinct`), but the transaction of `src/db.ts:63-83` takes no lock, and two
  syncs of a scope that overlap can both append the pair (`FactsOverlap.TwoSyncsRepeatKey`,
  `FactsOverlap.KeysSafeExactly`).
- `src/factsToSemanticGraph.ts:231` says an overlap of 1 means identical significant words. Texts
  without significant words do not even overlap themselves (`TextOverlap.FullOverlapExactly`).
- `src/propagationEngine.ts:264` counts dimensions observed by at least two roles. The counters count
  listings, so one role that names a dimension twice shares it with nobody
  (`Observation.OneRoleSharesWithItself`, `Observation.SumsAgreeExactly`).
- `demo/server/sse.ts:32` decodes each chunk on its own. A chunk that begins inside a character changes
  the text (`Utf8.HalvedCharacterIsLost`, `Utf8.ChunksKeepTextExactly`).

## Model

| member | source | states |
|---|---|---|
| StateGraph.PredecessorInvertsTransition | src/actionExecutor.ts:352-354 | the executor's lookup of an edge by its target finds the edge that was taken |
| StateGraph.CycleOfFive | src/stateGraph.ts:26-32 | the transitions lead from ContextIngested through the four other nodes, in pipeline order, and back |
| StateGraph.StateStore.InitState | src/stateGraph.ts:90-118 | an existing row wins; otherwise the row starts at epoch 0 |
| StateGraph.StateStore.ResetStateTo | src/stateGraph.ts:124-138 | only an existing row is reset, to a new run id and epoch 0; the audit log stays |
| StateGraph.StateStore.ResetScopeAndReinit | src/scopeReset.ts:97-114 | deletion and upsert leave a row at ContextIngested, epoch 0 |
| StateGraph.StateStore.CommitAdvance | src/stateGraph.ts:204-243 | row and audit event change together, exactly if the epoch is the expected one |
| StateGraph.StateStore.AdvanceState | src/stateGraph.ts:162-244 | succeeds exactly if the row is at the expected epoch and governance, when asked, allows its edge; then it is the atomic step, otherwise nothing changes |
| ScopeProcesses.Scope.ProposeAdvance | src/agentLoop.ts:317-347 | emits exactly when the agent proposes advances, names a target and the row is at an allowed node: a proposal with the row's epoch, run id and edge, in the mode of the policy |
| ScopeProcesses.Scope.Govern | src/agents/governanceAgent.ts:681-784 | another epoch is rejected before the kernel is asked; otherwise the verdict parks, approves or rejects the proposal, and the read followed by the parking or the approval are steps of the runs |
| ScopeProcesses.Scope.AddPending | src/mitlServer.ts:65-79 | an item under the same id is replaced |
| ScopeProcesses.Scope.ParkOtherItem | src/mitlServer.ts:65-79 | what other processes park is a step of the runs |
| ScopeProcesses.Scope.ApprovePending | src/mitlServer.ts:162-185 | not found, finality review and approval are told apart; approval publishes the human action, then deletes |
| ScopeProcesses.Scope.RejectPending | src/mitlServer.ts:233-247 | publishes no action and deletes the item |
| ScopeProcesses.Scope.ExecuteActionInline | src/actionExecutor.ts:281-369 | advances exactly if the action is an approved advance for the row's epoch and a human approved it, or the policy allows the row's edge under the stored report, or under level "none" without one, or the text is falsy; then it is one atomic advance, announced as audited, with the next job |
| ScopeProcesses.ExecuteOutcome | src/actionExecutor.ts:281-369 | load, check, commit and announce with nothing in between advance the scope exactly if the action is well-formed, current and allowed on the row's own edge |
| ScopeProcesses.DeliveryAdvancesExactly | src/actionExecutor.ts:281-369 | an undisturbed delivery advances the scope exactly under these conditions, and the new row, audit event and announcement are as stated |
| ScopeProcesses.NextJobIsDue | src/agentRegistry.ts:47-149 | the job published at a node is that of an agent allowed there, made for the node and advancing it, so the cycle never stalls |
| ScopeProcesses.ExecuteIsRun | src/actionExecutor.ts:281-369 | an undisturbed execution is one of the interleaved runs |
| EpochRuns.OutsideIsNeverBlocked | src/stateGraph.ts:90-138 | in no state of the model are inits, resets, deletions, removals or foreign messages impossible, so the theorems over every run cover them |
| EpochSafety.StepKeepsInv | src/stateGraph.ts:162-244 | every step of every process keeps: the node is a function of the epoch, executors remember the edge of their epoch, the log is a chain, causes and agent payloads name edges of the cycle |
| EpochTheorems.RunRefinesAtomic | src/stateGraph.ts:180-243 | under every interleaving, read, check and commit have the effect of one atomic advance at the commit |
| EpochTheorems.EdgeSafeExactly | src/stateGraph.ts:204-211 | a compare-and-swap on the epoch never moves the row along another edge than the one read, if and only if all inits and resets name one start node |
| EpochTheorems.ResetBetweenReadAndCommit | src/stateGraph.ts:124-138 | the ABA run: a stale executor would still commit after a reset to any start node |
| EpochTheorems.AuditLogIsChain | src/stateGraph.ts:226-241 | the audit events of each run are its epochs 1 to n along the cycle, in commit order; n is the row's epoch for the current run |
| EpochTheorems.OneCommitPerEpoch | src/actionExecutor.ts:287-318 | under redelivery, duplication and reordering an epoch of a run is committed at most once, epochs rising |
| EpochTheorems.AnnouncementsAreAudited | src/actionExecutor.ts:352-368 | every event executors announce is in the audit log |
| EpochGovernance.CommitsAreGoverned | src/actionExecutor.ts:297-318 | a commit no human approved was allowed by the loaded policy for exactly the audited edge, under the loaded report, or under level "none" when there is none; the exception is a falsy drift text |
| EpochGovernance.FalsyDriftSkipsGovernance | src/actionExecutor.ts:308-315 | the exception is real on every edge of the cycle and under every policy that may be in force |
| EpochGovernance.AlwaysGovernedExactly | src/actionExecutor.ts:297-318 | in every run each commit is human or on an edge its policy allows under some report, if and only if there is no start node, no drift text is falsy, or no policy in use refuses an edge of the cycle under every report |
| EpochTheorems.AgentActionsCommitTheirEdge | src/agentLoop.ts:317-347 | an agent-built action commits the edge its payload names although the executor ignores it |
| EpochTheorems.StaleRunCommits | src/agents/governanceAgent.ts:861-910 | an action stamped with an older run id can commit in a newer run |
| EpochTheorems.SingleRunStamp | src/agents/governanceAgent.ts:861-910 | it cannot while only one run id has been handed out |
| EpochStamps.StampExactly | src/agents/governanceAgent.ts:861-910 | in every run, an action commits in the run of the row that governance or the agent read for its stamp if and only if no effective init, reset or re-init lies between that read and the commit |
| EpochStamps.AgentActionsAreStamped | src/mitlServer.ts:162-185 | every action that governance or a human made from an agent's proposal was stamped by some earlier step, so the theorem covers it |
| EpochStamps.RunLeftExactly | src/stateGraph.ts:90-138 | a run id leaves the row for good with the first event that starts another run, and with nothing else |
| CausalDag.ConeWalk.Collect | src/causalContributions.ts:208-216 | the walk keeps parents before children, lists the row it was called for last, and adds nothing outside its cone |
| CausalDag.CausalStore.KnownParents | src/causalContributions.ts:141-152 | the missing parents are exactly the listed ones that are not stored |
| CausalDag.CausalStore.CreateContribution | src/causalContributions.ts:79-139 | which error is reported: the hash's, missing parents when validation is on, the validation's for known parents; without one, set insertion of the content-addressed row |
| CausalDag.CausalStore.GetFrontier | src/causalContributions.ts:239-252 | the rows without children, each once |
| CausalDag.CausalStore.EmitContribution | src/causalEmit.ts:54-105 | the parents are those given or else the frontier, none if reading it fails; the row is inserted if new; failures are swallowed and change nothing |
| CausalDag.CausalStore.GetCausalCone | src/causalContributions.ts:200-234 | exactly the stored rows reachable through stored rows, each once, after all its stored parents, the row itself last; dangling parents lead nowhere |
| CausalDag.ParentsFirstCoversCone | src/causalContributions.ts:208-216 | a list with parents first that holds a row holds its whole cone |
| CausalRuns.FrontierBounded | src/causalEmit.ts:63-87 | with at most k emits in flight the frontier never has more than k rows, under every interleaving of reads, inserts and failures |
| CausalRuns.FrontierSizesExactly | src/causalEmit.ts:63-87 | a frontier of m rows can arise if and only if m is at most k |
| CausalRuns.NothingDangles | src/causalEmit.ts:63-87 | rows written through the frontier have all their parents stored and in their cones |
| CausalRuns.SerialScopeIsChain | src/causalContributions.ts:200-252 | with one emit at a time the scope is a chain and the newest row's cone is the whole scope in insertion order |
| CausalRuns.SerialInsertAdds | src/causalContributions.ts:118-136 | in a serial run no emit collides with an existing row |
| SlidingWindow.SinceSince | src/hatcheryMetrics.ts:41-44 | pruning a pruned history loses nothing when the cutoff does not move back |
| SlidingWindow.ChainHistoryIsWindow | src/hatchery.ts:453-461 | the history handed from agent to agent is the full history cut to the window |
| SlidingWindow.RestartRefusedExactly | src/hatchery.ts:457-461 | a restart is refused if and only if this exit and the maxRestarts exits before it lie in one window |
| SlidingWindow.RestartIntensity | src/hatchery.ts:457-461 | granted restarts within one window are at most maxRestarts |
| SlidingWindow.ArrivalRateEstimator.Prune | src/hatcheryMetrics.ts:41-44 | the samples are the full history filtered to the window |
| SlidingWindow.ArrivalRateEstimator.AddSample | src/hatcheryMetrics.ts:23-26 | they stay so when a sample arrives |
| SlidingWindow.ArrivalRateEstimator.EstimateLambda | src/hatcheryMetrics.ts:28-39 | over the full history in the window that ends now: 0 without a span, otherwise the rate whose product with the span in milliseconds is 1000 times the message count |
| SlidingWindow.CountsAddUp | src/hatcheryMetrics.ts:37-37 | the message count of two stretches of samples is the sum of theirs |
| SlidingWindow.OptimalWorkersAreLeast | src/hatcheryMetrics.ts:59-69 | the worker count meets the target utilisation and one worker less would not, up to its bounds; it is the minimum without a positive rate or with crossed bounds |
| Hatchery.AgentIdInjective | src/hatchery.ts:300-302 | an id determines its role and number even for role names with dashes and digits |
| Hatchery.AgentHatchery.SpawnAgent | src/hatchery.ts:295-376 | nothing while paused; an error that uses up a number for a role that is not configured; otherwise a new alive agent under an id never used before |
| Hatchery.AgentHatchery.DrainBegins | src/hatchery.ts:398-412 | an agent that is not dead is marked draining and its role remembered |
| Hatchery.AgentHatchery.DrainEnds | src/hatchery.ts:413-421 | the agent is removed and the governance count lowered for its role, never below zero |
| Hatchery.AgentHatchery.OnAgentExit | src/hatchery.ts:437-498 | the agent goes; it is replaced by one new agent of its role exactly if it was alive, nothing is paused or shutting down, the role is configured, and at most maxRestarts of its recorded exits and this one lie in the window |
| Hatchery.ExitExactly | src/hatchery.ts:437-498 | an agent that is draining or dead only goes, and so does any agent during a shutdown or a pause; when an alive one is replaced, and by what |
| HatcheryRuns.ExitsInRuns | src/hatchery.ts:437-498 | so it is in every state of every run |
| SlidingWindow.SinceCounts | src/hatchery.ts:453-456 | the filtered history is as long as there are exits in the window |
| Hatchery.AgentHatchery.PauseAll | src/hatchery.ts:276-281 | undisturbed, it leaves no agent alive and does not touch draining ones |
| Hatchery.AgentHatchery.Resume | src/hatchery.ts:284-293 | undisturbed, every configured role has the larger of its old count and its minimum, no other role changes |
| HatcheryRuns.ExitStepIsExit | src/hatchery.ts:437-498 | the exit step of the runs is the supervisor's exit stretch |
| HatcheryRuns.StepKeepsPause | src/hatchery.ts:276-281 | under every interleaving, agents alive during an undisturbed pause are those the pause has yet to visit |
| HatcheryRuns.PausedMeansQuiet | src/hatchery.ts:276-281 | once pauseAll has returned and nobody has unpaused since its call, no agent is alive, whatever crashes, ticks, drains and rebinds did |
| HatcheryRuns.UnpausedDuringCall | src/hatchery.ts:276-293 | the proviso counts from the call: an unpausing and a spawn during the call leave an agent alive after it has returned |
| HatcheryRuns.PauseAddsNothing | src/hatchery.ts:295-299 | from any state in which the pause is set no agent is added until it is lifted, under every interleaving |
| HatcheryRuns.ShutdownIsFinal | src/hatchery.ts:440-448 | a shutdown can begin at any time, and in no later state is an exit answered with a new agent |
| HatcheryRuns.AgentIdsNeverReused | src/hatchery.ts:300-302 | in any state of any run the next id of a role was never used before |
| HatcheryRuns.AgentIdsHaveNoGaps | src/hatchery.ts:300-302 | the ids given to a configured role are numbered from 1 without gaps |
| RestartRuns.CrashChainIntensity | src/hatchery.ts:453-498 | in every run whose exits wait for the hand-over, a succession of agents gets at most maxRestarts restarts in any window |
| RestartRuns.CrashLoop | src/hatchery.ts:484-487 | for every n and every maxRestarts of at least 1 some run grants one succession n restarts at one instant |
| RestartRuns.RestartLimitExactly | src/hatchery.ts:453-498 | every run respects the limit if and only if exits wait for the hand-over, or maxRestarts is 0, or no role is configured |
| GovernanceCount.SurplusIsExits | src/hatchery.ts:316-319 | in every state of every run the count exceeds the number of governance agents by those of them that exited, less the drains that ended for none |
| GovernanceCount.CrashLeavesCount | src/hatchery.ts:437-498 | one crash of the only governance agent leaves the count at one more than there are agents |
| GovernanceCount.CountIsRightExactly | src/hatchery.ts:398-421 | the count is right in every run if and only if no governance agent exits and drains end while their agents are there, or no governance role is configured |
| FactsSync.SemanticGraph.FindActiveClaim | src/factsToSemanticGraph.ts:463-467 | finds an active claim with exactly this text if there is one |
| FactsSync.SemanticGraph.UpdateNodeConfidence | src/semantic-graph/nodes.ts:156-168 | the confidence becomes the larger of the two |
| FactsSync.SemanticGraph.RaiseExisting | src/factsToSemanticGraph.ts:433-461 | a matched claim becomes active with the larger confidence and takes the new wording exactly when the canonical readings agree; a candidate is reported exactly for a different reading that was not merged |
| FactsSync.SemanticGraph.MergeOrAppend | src/factsToSemanticGraph.ts:462-504 | merged into an active claim with the same text, or appended when there is none |
| FactsSync.SemanticGraph.SyncClaims | src/factsToSemanticGraph.ts:409-506 | the graph, the matched rows and the candidates in order are those the batch determines |
| FactsSync.SemanticGraph.StaleClaims | src/factsToSemanticGraph.ts:581-600 | exactly the facts-sync claims that were active and that no claim of the batch goes to become irrelevant |
| FactsSync.SemanticGraph.Accumulate | src/factsToSemanticGraph.ts:508-579 | a goal or risk becomes active exactly if a text of the batch matches it; one new node for each text that is not blank and matches nothing, in order |
| FactsSync.SemanticGraph.IndexPairs | src/factsToSemanticGraph.ts:646-655 | the index answers with the first contradiction of each pair key, in the order the rows are read |
| FactsSync.SemanticGraph.PlaceContradiction | src/factsToSemanticGraph.ts:682-722 | the target becomes active; without a target the string is appended and indexed |
| FactsSync.SemanticGraph.SyncContradictions | src/factsToSemanticGraph.ts:604-722 | a node becomes active exactly if a processed string refers to it; one new node for each processed string that refers to nothing; the updated index and the set of seen keys lose and repeat none |
| FactsSync.SemanticGraph.SyncFacts | src/factsToSemanticGraph.ts:296-602 | one whole sync: the phases compute the graph and the candidates that the next rows characterise |
| FactsMatching.EntriesExactly | src/factsToSemanticGraph.ts:411-424 | the claims of a batch are its structured ones with trimmed dimensions if there are any, else the flat ones, and none below the threshold |
| FactsMatching.MatchExactly | src/factsToSemanticGraph.ts:242-284 | a claim matches the first claim that carries its dimension; only without one does the text matcher decide |
| FactsMatching.MatchedClaimIsRaised | src/factsToSemanticGraph.ts:426-461 | that row ends active, with the greater confidence, its dimension and its reading, and nothing is appended for the claim |
| FactsMatching.UnmatchedClaimIsMergedOrNew | src/factsToSemanticGraph.ts:462-506 | a claim that matches none is merged into an active claim with exactly its text, or becomes a new claim with its text, dimension and confidence |
| FactsMatching.NoSecondClaim | src/factsToSemanticGraph.ts:428-431 | a sync adds no second claim to a dimension that has one |
| FactsMatching.WordingIsKept | src/factsToSemanticGraph.ts:436-440 | a claim keeps its text unless a claim of the batch matches it with the same reading and other words |
| FactsMatching.LastWordingWins | src/factsToSemanticGraph.ts:436-440 | then it has the text of the last one that does |
| FactsMatching.OfferExactly | src/factsToSemanticGraph.ts:436-453 | a merge candidate is reported exactly for a match with another reading that was not merged before |
| FactsReferences.ItemIsActiveOrNew | src/factsToSemanticGraph.ts:508-579 | a goal or risk makes the node active that the matcher answers among its kind, or becomes a new one with its canonical text |
| FactsReferences.RecognisedExactly | src/factsToSemanticGraph.ts:614-643 | what the resolved checks recognise: an equal pair key or lowercased text, an overlap of at least 0.55, or an embedding |
| FactsReferences.LookedAtExactly | src/factsToSemanticGraph.ts:657-680 | a string is processed exactly if it is not blank, repeats no earlier pair key and is not recognised |
| FactsReferences.RefersExactly | src/factsToSemanticGraph.ts:682-697 | it refers to the first contradiction with its pair key; only without one does the text matcher decide |
| FactsReferences.ContradictionIsActiveOrNew | src/factsToSemanticGraph.ts:657-722 | a processed string makes the contradiction active that it refers to, or becomes a new one |
| FactsReferences.OtherContradictionsStay | src/factsToSemanticGraph.ts:657-722 | every other contradiction stays as it was |
| FactsNodes.SyncedClaim | src/factsToSemanticGraph.ts:433-600 | a claim is raised if the batch goes to it; otherwise it goes stale if it was an active facts-sync claim, and stays as it was if not |
| FactsNodes.SyncedGoal | src/factsToSemanticGraph.ts:508-543 | a goal becomes active exactly if a text of the batch matches it in the graph found, whatever the earlier phases did |
| FactsNodes.SyncedRisk | src/factsToSemanticGraph.ts:545-579 | and so does a risk |
| FactsNodes.SyncedContradiction | src/factsToSemanticGraph.ts:604-722 | a contradiction becomes active exactly if a string that is not blank, repeated or resolved refers to it in the graph found |
| FactsNodes.NothingInvented | src/factsToSemanticGraph.ts:469-722 | every new node is active and carries an item of the batch that matched nothing in the graph found |
| FactsNodes.ClaimIsKept | src/factsToSemanticGraph.ts:409-506 | where a claim of the batch goes there is an active claim, which has its reading unless it was matched by similarity |
| FactsNodes.GoalIsKept | src/factsToSemanticGraph.ts:508-543 | a goal that is not blank is in the graph: the node it matches is active, or there is a new one |
| FactsNodes.RiskIsKept | src/factsToSemanticGraph.ts:545-579 | and so is a risk |
| FactsNodes.ContradictionIsKept | src/factsToSemanticGraph.ts:682-722 | a processed contradiction that refers to nothing has a new node |
| FactsPhases.ClaimsHold | src/factsToSemanticGraph.ts:409-506 | after any part of the batch, exactly the rows it went to are raised, new claims come from it, and they repeat neither each other nor an active claim that stayed as it was |
| FactsSpec.TrimTwice | src/contradictionPair.ts:8-10 | trimming is idempotent, so a stored text has the pair key of the string it came from |
| FactsRuns.NodesAreKept | src/factsToSemanticGraph.ts:581-602 | over every sequence of syncs, and of resolutions, merges and additions by others, no node is removed or changes type, creator or dimension |
| FactsRuns.ConfidenceIsMaximum | src/factsToSemanticGraph.ts:454-457 | over such a sequence a claim's confidence is the maximum of its initial value and the confidences of exactly those batches that reach the threshold of their sync and have a claim that goes to it |
| FactsRuns.ClaimReadingIsKept | src/factsToSemanticGraph.ts:436-453 | the canonical reading of a claim is that of the last equivalence approved for it, or else the initial one, whatever is synced |
| FactsRuns.ClaimActiveExactly | src/factsToSemanticGraph.ts:581-600 | after each sync a facts-sync claim is active if and only if the batch reaches the threshold and one of its claims goes to it |
| FactsRuns.ClaimedExactly | src/factsToSemanticGraph.ts:421-489 | a claim goes to a row if and only if it is not blank and was matched to the row, or merged into it by its exact text, or created it |
| FactsRuns.LowConfidenceStalesAll | src/factsToSemanticGraph.ts:410-410 | a batch below the threshold leaves no facts-sync claim active |
| FactsRuns.ItemActiveExactly | src/factsToSemanticGraph.ts:508-579 | after each sync a goal or risk is active if and only if it was, or a text of the batch matches it, or it is new |
| FactsRuns.OthersStayActive | src/factsToSemanticGraph.ts:601-602 | a goal, risk or contradiction leaves active only where another process sets its status, never by a sync |
| FactsRuns.PairKeysStayDistinct | src/factsToSemanticGraph.ts:646-722 | pair keys of facts-sync contradictions, once pairwise different, stay so, whatever the lookups of each sync answer and whatever others do in between |
| FactsOverlap.TwoSyncsRepeatKey | src/db.ts:63-83 | two overlapping syncs of one scope can both append the same pair |
| FactsOverlap.KeysSafeExactly | src/db.ts:63-83 | pair keys stay distinct in every run with at most k open syncs if and only if k is at most 1 or no text has a key |
| FactsRuns.ResolvedStaysExactly | src/factsToSemanticGraph.ts:614-697 | a resolved contradiction stays resolved if and only if no string that the resolved checks let through refers to it |
| FactsRuns.SameKeyReopensExactly | src/factsToSemanticGraph.ts:657-700 | when a pair key is extracted again, its first contradiction, if resolved, stays so if and only if a resolved check recognises the string |
| FactsRuns.CaseBlindKeysProtect | src/factsToSemanticGraph.ts:623-636 | were pair keys blind to case, a listed resolved contradiction could not be referred to by its key |
| FactsRuns.SameWordsProtect | src/factsToSemanticGraph.ts:639-642 | a string with the same significant words as a listed resolved contradiction, at least one, is recognised whatever its key |
| FactsReopened.SwappedNliReopens | src/factsToSemanticGraph.ts:623-636 | a listed resolved NLI contradiction whose words are all short is reopened by the same statement with its sides swapped when no embedding tells |
| TextOverlap.ContentOverlap | src/contradictionPair.ts:55-70 | the counting loop gives shared words over the larger set, 0 for an empty set |
| TextOverlap.OverlapTriangle | src/contradictionPair.ts:55-70 | one minus overlap satisfies the triangle inequality for all finite word sets |
| TextOverlap.CascadedAreRelated | src/resolutionService.ts:195-205 | two contradictions cascaded by overlap from one primary overlap each other by at least 0.10 |
| TextOverlap.FullOverlapExactly | src/factsToSemanticGraph.ts:229-240 | overlap 1 if and only if the word sets are equal and not empty |
| TextOverlap.MatchExistingNode | src/factsToSemanticGraph.ts:259-284 | the oldest prefix match, else the oldest best score of at least 0.6, else nothing |
| NumberWords.SpellingIsInverted | src/canonicalValue.ts:66-90 | for every number below 10^12, whatever words stand in between, and whether or not the "one" of a group's hundred or of a bare magnitude is said, parsing its English spelling gives the number |
| NumberWords.NothingOmitted | src/canonicalValue.ts:66-90 | standard English is the spelling in which every one is said |
| NumberWords.SpellInjective | src/canonicalValue.ts:66-90 | different numbers have different spellings, whichever ones are left out |
| NumberWords.ThousandBillionIsMisread | src/canonicalValue.ts:80-86 | the bound is sharp: "one thousand billion" is read as 1000001000 |
| NumberWords.FoundExactly | src/canonicalValue.ts:74-89 | a number is found if and only if some token is a number word |
| NumberWords.WordsToNumber | src/canonicalValue.ts:66-90 | the loop returns the number of every such spelling below 10^12, and null exactly without number words |
| Amounts.CanonicalIsClose | src/canonicalValue.ts:126-153 | formatting and reading back errs by at most half a percent from 1000 upward and 0.005 below |
| Amounts.CanonicalIsMonotone | src/canonicalValue.ts:126-153 | it never swaps two amounts, across all unit boundaries |
| Amounts.CanonicalIsIdempotent | src/canonicalValue.ts:126-153 | doing it twice changes nothing more |
| Amounts.TextStableExactly | src/canonicalValue.ts:126-153 | the text changes on a second pass if and only if the mantissa rounded up to 1000 below the largest unit, and never on a third |
| Amounts.FormatIsOdd | src/canonicalValue.ts:126-145 | negative amounts are formatted like their absolute values |
| Utf8.DecodeEncode | demo/server/sse.ts:32-32 | decoding inverts encoding for every text |
| Utf8.WellFormedExactly | demo/server/sse.ts:32-32 | the byte sequences read as one character are exactly the encodings of the characters |
| Utf8.ChunksKeepTextExactly | demo/server/sse.ts:31-32 | chunk-wise decoding keeps the text if and only if no chunk begins inside a character; otherwise the text gets longer |
| Utf8.HalvedCharacterIsLost | demo/server/sse.ts:31-32 | a character cut in half arrives as two replacement characters |
| SseProxy.BlockMatchesActiveScope | demo/server/sse.ts:72-91 | comments pass; otherwise a scope must be active and the first line with data must accept it |
| SseProxy.PassesExactly | demo/server/sse.ts:56-91 | an event passes exactly if it names the active scope; a malformed line, an event without scope, or no data do not pass |
| SseProxy.LinesAreJoined | demo/server/sse.ts:76-76 | the lines of a block are what stands between its line breaks |
| SseProxy.Proxy.OnData | demo/server/sse.ts:31-43 | a chunk forwards the passing blocks it completes and leaves the unterminated rest in the buffer |
| SseProxy.SplitExactly | demo/server/sse.ts:34-36 | blocks and rest are the one way to write a text as separated blocks and an unterminated rest |
| SseProxy.ForwardedIsReadBack | demo/server/sse.ts:38-41 | a client that splits what it was sent finds exactly the forwarded blocks |
| SseProxy.ChunkingIsInvisible | demo/server/sse.ts:30-43 | for every way of cutting, the forwarded blocks and the buffer are those of the whole text received |
| SseProxy.ByteChunkingIsInvisible | demo/server/sse.ts:30-43 | and those of the text sent, when no chunk begins inside a character |
| SseProxy.SplitSurvivesExactly | demo/server/sse.ts:30-43 | the blocks and rest are those of the text sent if and only if no chunk begins inside a character |
| CircuitBreaker.Guard.Invoke | src/resilience.ts:89-121 | refused if and only if the status is open; otherwise the outcome is that of the function, and the new state is fixed |
| CircuitBreaker.FailuresArePaced | src/resilience.ts:89-121 | from any state, threshold + 1 failing invocations in a row contain a pause of at least the cooldown |
| CircuitBreaker.OpenTakesAStreak | src/resilience.ts:70-76 | a breaker that is not closed has seen at least threshold failing invocations in a row, up to now |
| CircuitBreaker.ProbeReopensExactly | src/resilience.ts:97-106 | a failed probe reopens the breaker if and only if the threshold is at most one |
| CircuitBreaker.HalfOpenAdmitsThreshold | src/resilience.ts:97-106 | otherwise the half-open breaker lets `threshold` failing calls through |
| CircuitBreaker.HalfOpenFromNew | src/resilience.ts:89-121 | from a new breaker with any threshold of at least 1: that many failures, the cooldown, and that many failing calls more, all of which run |
| Cosine.CosineSimilarity | src/embeddingPipeline.ts:42-54 | 0 for mismatched, empty or zero vectors; otherwise the normalised product, between -1 and 1, the bounds reached exactly for the same and the opposite direction |
| Cosine.CauchySchwarz | src/embeddingPipeline.ts:47-51 | the square of the product is at most the product of the squares, for all vectors and hence after every iteration |
| Evidence.BuildFlatState | src/evidenceStateManager.ts:19-33 | for each role in order the support then the refutation, cut or zero-filled to numDims |
| Evidence.FlatIsParsed | src/evidenceStateManager.ts:39-53 | parsing a flat state gives back every role with its vectors cut or zero-filled |
| Evidence.EvidenceSurvivesExactly | src/evidenceStateManager.ts:19-53 | per-role evidence survives the flat form if and only if every vector has numDims entries |
| Evidence.FlatSurvivesExactly | src/evidenceStateManager.ts:19-53 | a flat state survives the per-role form if and only if it has 2 numDims entries for each role name |
| Observation.CountedAsSharedExactly | src/propagationEngine.ts:274-286 | a dimension's counter reaching two means two roles observe it, if and only if no role alone lists it twice |
| Observation.SumsAgreeExactly | src/propagationEngine.ts:263-288 | the sum is the documented one for all disagreements if and only if no role alone repeats a dimension |
| Observation.OneRoleSharesWithItself | src/propagationEngine.ts:274-286 | one role that names a dimension twice makes the sum differ from the documented one |
| Observation.NoRepeatedNames | src/propagationEngine.ts:101-114 | a role that names no dimension twice lists none twice |
| Observers.ListedExactly | src/propagationEngine.ts:101-114 | which dimensions a role lists, and how often, in terms of its configuration |
| Observers.CountedExactly | src/propagationEngine.ts:274-286 | a counter reaches two exactly if two roles observe the dimension or one names it twice |
| Propagation.PropagationEngine.BuildObservedDims | src/propagationEngine.ts:101-114 | a role that observes all lists each dimension once; another lists those it names, by their first index and as often as it names them, and nothing else; the cache is transparent |
| Propagation.PropagationEngine.CountObservers | src/propagationEngine.ts:274-279 | the counters hold the number of listings of each dimension |
| Propagation.PropagationEngine.GetSharedDisagreement | src/propagationEngine.ts:268-288 | all dimensions in constant mode; in projection mode those that two roles observe or one names twice |
| Propagation.AllSharedIsAll | src/propagationEngine.ts:268-288 | the two modes agree where every dimension counts as shared |
| Propagation.RoleIndex | src/propagationEngine.ts:123-123 | the last of equal role names wins |
| Propagation.PropagationEngine.BuildEdgeList | src/propagationEngine.ts:120-161 | the configured edges between known roles, the complete graph when there are none, and a transparent cache |
| Propagation.ConfiguredExactly | src/propagationEngine.ts:120-132 | the list holds the role indices of the configured edges between known roles, in order and nothing else |
| Propagation.CompleteGraphExactly | src/propagationEngine.ts:134-140 | the default list holds each unordered pair of different roles exactly once and nothing else |
| EnergyIdentity.ColumnIdentity | src/propagationEngine.ts:253-256 | pairwise squared differences sum to the number of entries times the spread around the mean |
| EnergyIdentity.EnergyIsScaledDisagreement | src/sgrsAdapter.ts:752-776 | over the default edges, with everything observed, the Dirichlet energy is the disagreement times the number of roles, for every flat state |
| EnergyIdentity.IdentityExactly | src/sgrsAdapter.ts:752-760 | it is so for every flat state if and only if every role observes every dimension or there is at most one role |
| EnergyEdges.IdentityOverExactly | src/sgrsAdapter.ts:752-760 | with everything observed, the identity holds over an edge list for every flat state if and only if the list joins each pair of different roles exactly once, or there are no dimensions |
| EnergyIdentity.ZeroEnergyExactly | src/propagationEngine.ts:301-309 | for every edge list, zero energy means joined roles agree on what both observe, and energy is never negative |

## Left out

- The Rust kernel behind `src/sgrsAdapter.ts` and `src/convergenceTracker.ts`: only the formulas its
  documentation states are modelled, `canTransition` is a parameter, and content hashes do not collide.
- Scopes: each model lives in one scope. Human approvals carry no scope id, the envelope's scope comes
  from the process, and rids do not contain the scope, so claims across scopes would be different ones.
- Exceptions on the way of an action, such as drift text that is not JSON: they end a delivery early
  and are followed by a redelivery, which the runs allow anyway.
- Deletion of audit rows by a scope reset: tags with the wrong scope make it a question of its own.
- Finality responses, the oversight agent's own decisions, and the LLM executor path.
- EpochTheorems.EdgeSafeExactly: run ids handed out are new, as random UUIDs are; a caller who passes an
  old run id to a reset is not modelled.
- CausalRuns.FrontierBounded: unlike `CausalDag.CausalStore.EmitContribution`, the interleaved emits have
  no explicit parents and no fallback after a failed frontier read; both can leave more tips.
- CausalDag.CausalStore.CreateContribution: role, tier, mode and validity columns are not modelled; what
  the hash and the validation report is a parameter.
- HatcheryRuns.PausedMeansQuiet: timers, lags and scaling decisions are not modelled; instead a spawn or
  a drain may happen at any moment.
- RestartRuns.RestartLimitExactly: a succession is a chain of agents each restarted for the one before;
  an agent that is spawned without an exit begins a new one.
- FactsSync.SemanticGraph.SyncFacts: edges, provenance, valid time, document markers and embeddings are
  not modelled; confidences are exact.
- FactsRuns.NodesAreKept: each sync is one step here. `FactsOverlap` lets syncs overlap, but only their
  contradictions. Scope resets, which delete all nodes, begin a new sequence.
- FactsReopened.SwappedNliReopens: the three pair keys and the overlap it uses are stated as what the
  parser answers on these texts; the text scanning of the parser is not part of this model.
- TextOverlap.CascadedAreRelated: contradictions cascaded by an equal pair key need share no word.
- TextOverlap.ContentOverlap: splitting a text into significant words is not modelled.
- NumberWords.WordsToNumber: tokens are modelled, not the splitting of text; the inherited property
  names that JavaScript finds in a word table, and numbers from 2^53 upward, are not.
- Amounts.CanonicalIsClose: amounts are exact and the text is a number with a unit; regular expressions,
  currency symbols and the exponent text of numbers from 10^21 upward are not modelled.
- SseProxy.Proxy.OnData: the set of clients is not modelled, `sent` is what each connected one receives;
  JSON parsing is a parameter; the chunking theorems fix the active scope.
- CircuitBreaker.Guard.Invoke: overlapping calls are not modelled. `withCircuitBreaker` of `src/s3.ts` is
  another machine.
- Cosine.CosineSimilarity: square roots are inputs and numbers exact; rounding is not modelled.
- EnergyIdentity.EnergyIsScaledDisagreement: topology presets and restriction maps other than the
  projection on shared dimensions are not modelled.
- NATS, Postgres, S3, HTTP, OpenFGA, telemetry, LLM calls, authentication and the user interfaces.
