# Withdraw bot: verified model

The bot watches a Morpho vault and leaves it when something goes wrong. This project models
the four parts of it whose state evolves over unbounded runs, in Dafny, and proves what every
run keeps.

* **The full exit** (`Ints`, `Gas`, `GasLadder`, `Exit`, `Withdraw`, `WithdrawRuns`,
  `WithdrawOutcomes`, `Serial`, `WithdrawInterleaving`). `Withdraw.Service` performs one attempt
  on its own fields and is proved equal to a transition function; runs of that function carry
  one nonce, one capped fee ladder (EIP-1559, section "Specification") and one spacing rule per
  epoch, an epoch being the span between two clears of `pending`. `Serial` shows for any lawful
  machine under one mutex that every interleaving of micro-steps is a sequential run, and that
  every sequential run is some interleaving; `WithdrawInterleaving` makes the service such a
  machine.
* **Threshold overrides** (`Overrides`, `Thresholds`, `ThresholdRuns`, `ThresholdProvenance`,
  `ThresholdReach`). Set and confirm on two keyed tables, several users, expiries, failures of
  the database at every operation, and re-validation against what was applied in between.
* **The monitor tick** (`Core`, `Clone`, `Monitor`, `MonitorRuns`, `SharePrice`, `Liquidity`,
  `VaultState`, `Alerts`, `AlertOrder`, `AlertRuns`). Results live on the heap, as Go slices and
  maps that could be shared, and are cloned at each boundary; the pass, the loop, and the alerts
  that start withdrawals are proved against functions on values.
* **Number and text kernels** (`SharePrice`, `Units`, `Markdown`, `VaultState`, `Lex`).

How the model reads the program:

* `big.Int` is `int`, a nil `*big.Int` is `None`, time is an `int` of nanoseconds. `int64` and
  `uint64` are bounded, and their wrap-around, truncation and saturation are written out.
* What the clock, the chain, the signer, the node, the repository and the notifier answer
  during one call is a parameter of that call. Nothing is assumed about the answers; the clock
  may run backwards. The signer is a function from a transaction to a signature: it does not
  change what it signs.
* A joined error is the set of the sentinels that `errors.Is` would find in it.
* The JSON payload of a confirmation is kept as the request that it encodes. Evidence and
  metric values are kept as they are before they are printed.
* The histories (`sends`, `attempts`, `epoch`, `rows`, `handled`, `trace`, `History`) are ghost:
  they record what happened and decide nothing.
* A failed `Confirm` may have deleted the confirmation, and one whose audit event could not be
  written has been applied all the same (`RecordFailed`).

Two statements hold less broadly than they read, and the exact conditions are proved. Requests
that were each valid when they were made can be inconsistent together
(`ThresholdReach.JointlyInconsistentRequests`); the second is then refused at confirm time,
which is why the effective module stays valid. And for a `GasPolicy` built by hand the sum
`10000 + bps`, an `int64`, can overflow: above `MaxInt64 - 10000` the factor turns negative and
every replacement is rejected (`Gas.OverflowingBumpIsNegative`, `Gas.BumpFailsExactlyWhen`). The
bot itself never builds such a policy: `internal/config/config.go:122` accepts a `fee_bump_bps`
between 0 and 10000 only, before `internal/app/runtime.go:181` uses it.

## Model

| member | source | states |
|---|---|---|
| Ints.WrapInt64 | internal/withdraw/gas.go:90-94 | an int64 sum is congruent to the exact sum modulo 2^64, and equal to it in range |
| Ints.SaturateInt64 | internal/withdraw/service.go:174 | a difference of times is exact in range and saturates outside it |
| Gas.ValidateCaps | internal/withdraw/gas.go:54-62 | accepts exactly the policies whose caps, where set, are positive |
| Gas.Validate | internal/withdraw/gas.go:64-81 | accepts exactly the fees that EIP-1559 allows |
| Gas.CapBig | internal/withdraw/gas.go:96-101 | the smaller of a value and a cap, where no cap is infinite |
| Gas.BumpChecked | internal/withdraw/gas.go:37-52 | what it returns is valid under EIP-1559 and within both caps, and it never accepts invalid fees |
| Gas.FirstFees | internal/withdraw/service.go:272-281 | first fees that pass are valid and within both caps |
| Gas.FirstFeesAre | internal/withdraw/service.go:272-281 | the suggested tip capped, and on top of it the suggested gas price, capped |
| Gas.BumpIsFloor | internal/withdraw/gas.go:90-94 | any bump that fits int64, up or down, is the exact product rounded down |
| Gas.BumpedFeesAre | internal/withdraw/gas.go:37-52 | what an accepted bump gives: both fees bumped once and capped |
| Gas.BumpFacts | internal/withdraw/gas.go:90-94 | a bump is monotone, never lowers a fee, stands still exactly when value times bps is below 10000, and never exceeds the exact ratio |
| Gas.OverflowingBumpIsNegative | internal/withdraw/gas.go:90-94 | a bump whose int64 sum overflows makes every positive fee negative |
| Gas.BumpFailsExactlyWhen | internal/withdraw/gas.go:37-81 | a bump of valid fees is refused exactly when the fee cap is below the bumped and capped tip, or the int64 sum overflows |
| Gas.FirstFeesFailExactlyWhen | internal/withdraw/service.go:272-281 | first fees from positive suggestions are refused exactly when the fee cap is below the capped tip |
| GasLadder.UncappedBumpClimbs | internal/withdraw/gas.go:90-94 | k uncapped bumps never lower a fee, and either never move it or raise it by at least one each time |
| GasLadder.CapCommutesWithBump | internal/withdraw/gas.go:45-46 | capping after every bump gives what capping once at the end gives |
| GasLadder.LadderIsCappedOnce | internal/withdraw/gas.go:37-52 | the k-th replacement fees, both of them, are the k-fold uncapped bump capped once |
| GasLadder.LadderFailsExactlyWhen | internal/withdraw/gas.go:37-52 | k replacements in a row all pass exactly when the fee cap never falls below the bumped and capped tip |
| GasLadder.LadderNeverFails | internal/withdraw/gas.go:37-81 | with a fee cap at or above the tip cap no number of replacements is ever refused |
| GasLadder.LadderFeeOverTime | internal/withdraw/gas.go:90-101 | a fee never falls; it stands still for ever, or climbs strictly to its cap in at most cap minus first fee steps and stays there |
| GasLadder.LadderGrowthBound | internal/withdraw/gas.go:90-94 | flooring only lowers the ladder: it stays under the exact geometric growth |
| Exit.SimulationEstimatesTheBuiltTransaction | internal/withdraw/morpho_adapter.go:67-128 | a simulation succeeds with some gas exactly when the node estimates that gas for the very message BuildFullExit returns |
| Exit.PositionExactlyWhen | internal/withdraw/morpho_adapter.go:44-65 | the position is all shares of the owner, exactly if the adapter talks to its own vault and the balance can be read |
| Exit.BuildsExactlyWhen | internal/withdraw/morpho_adapter.go:67-76 | which transaction is built for which request, and for which none |
| Exit.SimulatesExactlyWhen | internal/withdraw/morpho_adapter.go:78-96 | every answer of a simulation: the expected assets, and the estimated gas, or a failure without gas if the estimate fails |
| Withdraw.ConfigError | internal/withdraw/service.go:216-233 | no error exactly when all five parts are there |
| Withdraw.InitialFeeCaps | internal/withdraw/service.go:254-282 | initial fees are valid and within caps whatever the node suggests |
| Withdraw.Service.constructor | internal/withdraw/service.go:86-106 | a new service has nothing pending and no history |
| Withdraw.Service.RecordAttempt | internal/withdraw/service.go:284-299 | the attempt is appended exactly when the repository takes it |
| Withdraw.Service.ExecuteFullExit | internal/withdraw/service.go:130-214 | one attempt changes pending, sends, attempts and epoch, and answers, exactly as the transition function says, in every branch |
| Withdraw.Service.DryRunFullExit | internal/withdraw/service.go:108-128 | fails exactly when adapter, position or simulation fail, reports what was simulated, and changes nothing |
| WithdrawOutcomes.WaitsExactlyWhen | internal/withdraw/service.go:174 | a call waits exactly while something is pending and less than a positive timeout has passed, saturation or not |
| WithdrawOutcomes.NoSharesOutcome | internal/withdraw/service.go:142-149 | without shares the noop attempt, field by field, is stored and the epoch ends, or nothing changes and the insert is reported |
| WithdrawOutcomes.RefusedOutcome | internal/withdraw/service.go:134-159 | which error a call gives that has no configuration, position, shares or matching signer; it changes nothing |
| WithdrawOutcomes.FailedSimulationOutcome | internal/withdraw/service.go:161-173 | a failed simulation is stored, field by field, and reported as an error, whatever is pending |
| WithdrawOutcomes.WaitingOutcome | internal/withdraw/service.go:174-183 | within the timeout the call reports what is pending, without an error, and changes nothing |
| WithdrawOutcomes.SubmissionOutcome | internal/withdraw/service.go:185-214 | a call that may send either sends, with pending, attempt, result and error field by field, or reports an error and changes nothing |
| WithdrawOutcomes.SubmissionExactly | internal/withdraw/service.go:185-200 | of a call that may send: what goes wrong first, build, nonce, fees, signature or node; and if nothing does, which transaction is sent, member by member |
| WithdrawOutcomes.InitialFeesError | internal/withdraw/service.go:254-271 | why there are no first fees, in the order of the checks |
| WithdrawOutcomes.InitialFeesExactlyWhen | internal/withdraw/service.go:254-282 | first fees are to be had exactly when caps and suggestions are positive and the fee cap covers the capped tip, and what they are |
| WithdrawOutcomes.SendIsMadeByItsCall | internal/withdraw/service.go:130-214 | each send of a run is made by its call in the state that the calls before have left |
| WithdrawOutcomes.EverySendOpensOrContinues | internal/withdraw/service.go:235-282 | in every run the first send of an epoch has the pending nonce that the node answered for the signer of its call, and fees from the node's suggestions; every other send has the nonce of the one before, a timeout later, both fees bumped once and capped |
| WithdrawRuns.StepIsQuietOrSends | internal/withdraw/service.go:130-214 | a call leaves the sends alone and records at most one non-submission, or sends exactly one transaction, bumped and due if one was pending |
| WithdrawRuns.StepKeepsInv | internal/withdraw/service.go:130-214 | every call keeps: faithful attempts, linked sends, pending as the last send of the epoch, submissions as recorded sends |
| WithdrawRuns.RunKeepsInv | internal/withdraw/service.go:130-214 | so does every run |
| WithdrawRuns.PendingIsLastAcceptedSend | internal/withdraw/service.go:147-211 | in every run pending is the last accepted send of the epoch, even if its attempt was not stored |
| WithdrawRuns.RecordsMatchSends | internal/withdraw/service.go:198-214 | recorded submissions are the accepted sends whose insert succeeded, in order |
| WithdrawRuns.EpochLadder | internal/withdraw/service.go:174-252 | between any two sends of an epoch: same nonce, that many checked bumps, that many timeouts |
| WithdrawRuns.OneNonceOneLadderPerEpoch | internal/withdraw/service.go:174-252 | in every run, sends of one epoch share the nonce, n of them span n-1 timeouts, and the fees of the later one are the first one's bumped freely and capped once; every resend is a bumped one |
| WithdrawRuns.ReplacementFeesNeverRejected | internal/withdraw/service.go:235-239 | with a fee cap at or above the tip cap no call of any run is turned down by the fee rules while something is pending |
| WithdrawRuns.ReplacementFeesRejectedExactlyWhen | internal/withdraw/service.go:235-239 | a due replacement is refused exactly when the fee cap is below the bumped and capped tip |
| WithdrawRuns.BufferedGasRange | internal/withdraw/service.go:334-341 | the gas limit lies between the estimate and twice the estimate, exactly scaled, without loss to 64 bits |
| WithdrawRuns.BufferedGasExactlyWhen | internal/withdraw/service.go:334-341 | for any positive buffer the scaled estimate survives exactly when it fits 64 bits |
| WithdrawRuns.StepSendsAtMostOnce | internal/withdraw/service.go:130-214 | a call sends at most one transaction, and a sent one was justified in that call |
| WithdrawRuns.EpochEndsExactlyWhen | internal/withdraw/service.go:142-149 | pending is cleared exactly when no shares are read and that attempt has been stored, and changes otherwise only with a send |
| WithdrawRuns.ReportedSubmissionIsTheLastSend | internal/withdraw/service.go:174-214 | after any run, a call that reports a submission reports the hash, nonce and fees of the last accepted send, which belongs to the present epoch |
| WithdrawRuns.ResendIsAlwaysBumped | internal/withdraw/service.go:174-242 | whatever a run sends while something is pending has waited for the timeout, reuses the nonce, and pays a checked bump of the fees of the send before it: the branch that returns the old fees never leads to a send |
| WithdrawRuns.EverySendJustified | internal/withdraw/service.go:150-214 | every send of every run was justified by one call: signer equals owner, positive shares, successful simulation and build, signed and accepted |
| WithdrawRuns.SendsAreTheCallsThatGo | internal/withdraw/service.go:130-214 | the i-th send of a run is made by the i-th of its calls for which everything went well, stored or not, and no other call sends |
| WithdrawRuns.SentIsWhatWasEstimated | internal/withdraw/morpho_adapter.go:44-96 | with the Morpho adapter a justified send has the target, value and data whose gas the node estimated, for all shares just read, whatever the gas buffer; the gas limit is the buffered estimate |
| WithdrawRuns.EverySendIsWhatWasEstimated | internal/withdraw/morpho_adapter.go:44-96 | the same of every send of every run, for the call that made it |
| Serial.EveryInterleavingIsSequential | internal/withdraw/service.go:131-132 | under one mutex any schedule of micro-steps keeps: exclusion, program order per thread, answers and shared state of the sequential run |
| Serial.OrderOnlyGrows | internal/withdraw/service.go:131-132 | the sequential order is only extended at its end, so returned calls stay before later ones |
| Serial.EverySequentialRunIsASchedule | internal/withdraw/service.go:131-132 | conversely, every list of calls is what some schedule comes to, with the mutex free again |
| WithdrawInterleaving.Advance | internal/withdraw/service.go:130-214 | every micro-step of a call brings it closer to leaving |
| WithdrawInterleaving.SmallStepsAreTheBigStep | internal/withdraw/service.go:130-214 | a call left alone takes exactly the big step |
| WithdrawInterleaving.WithdrawMachineLawful | internal/withdraw/service.go:130-214 | the service is a lawful machine under its mutex |
| WithdrawInterleaving.ConcurrentCallsAreARun | internal/withdraw/service.go:108-214 | any number of concurrent callers and dry runs: the finished calls returned what a sequential run returns, and with the lock free sends, attempts and pending are those of the run |
| WithdrawInterleaving.EveryRunIsPossible | internal/withdraw/service.go:130-214 | and every run is the outcome of some schedule of goroutines that make exactly those calls |
| Overrides.UpsertedIsMapUpdate | internal/morpho/overrides.go:108-117 | an upsert into the list is an update of the table it stands for |
| Overrides.UpsertedKeepsUnique | internal/morpho/overrides.go:108-117 | an upsert keeps (module, key) unique |
| Overrides.UpsertOverride | internal/morpho/overrides.go:108-117 | the loop replaces the first match in place or appends |
| Overrides.OverridesForModule | internal/morpho/overrides.go:177-185 | keeps exactly the module's entries, in order |
| Overrides.ApplySharePriceOverrides | internal/morpho/overrides.go:119-140 | the loop is the left-to-right application with the first error |
| Overrides.ApplyLiquidityOverrides | internal/morpho/overrides.go:142-163 | the loop is the left-to-right application with the first error |
| Overrides.ApplyVaultStateOverrides | internal/morpho/overrides.go:165-175 | the loop is the left-to-right application with the first error |
| Overrides.SharePriceWithReadsTable | internal/morpho/overrides.go:119-140 | on unique keys application succeeds exactly when every entry parses and depends on the table alone, so not on the order |
| Overrides.LiquidityWithReadsTable | internal/morpho/overrides.go:142-163 | the same for the liquidity thresholds |
| Overrides.VaultStateWithReadsTable | internal/morpho/overrides.go:165-175 | the same for the change severity |
| Overrides.ApplyOverrides | internal/morpho/overrides.go:29-58 | a stored list gives the effective module of its table, or fails exactly when an entry does not parse |
| Overrides.ValidateThresholdChange | internal/morpho/overrides.go:62-106 | accepts exactly the changes after which the table is consistent with the configuration |
| Overrides.SurrogateDecides | internal/morpho/overrides.go:203-241 | the verdict on the stand-in module is the verdict on the real one whenever its other fields are valid |
| Overrides.SurrogateReadsTheConfig | internal/morpho/overrides.go:203-241 | the thresholds of the stand-in are those that the configuration names under the five keys |
| Overrides.EffectiveThresholdsAre | internal/morpho/overrides.go:119-175 | each threshold of the effective module is what the table says under its key, or what it was; the texts "warn" and "urgent" mean those severities; nothing else of the module changes |
| Thresholds.BuildThresholdConfirmation | internal/interactions/telegram/thresholds.go:34-63 | succeeds exactly for the allowed module and key pairs, with the id, the request and the question |
| Thresholds.UnknownModuleExactlyWhen | internal/interactions/telegram/thresholds.go:49-56 | an unknown module is told from an unknown key |
| ThresholdProvenance.AllowedExactlyWhen | internal/interactions/telegram/thresholds.go:34-46 | the five pairs that can be set |
| Thresholds.ConfirmationIDIdentifies | internal/interactions/telegram/thresholds.go:57-62 | two allowed requests share an id exactly when they are by one user for one key of one module |
| Thresholds.Repositories.ListThresholdOverrides | internal/storage/repositories.go:223-248 | reads the whole table, every column, strictly sorted by module and key |
| Thresholds.ToThresholdOverrides | internal/app/overrides.go:71-77 | the loop drops the user and the time of each row and nothing else |
| Thresholds.WithoutAuditKeepsTheTable | internal/app/overrides.go:71-77 | what remains is a list with unique keys that stands for the values of the same table |
| Thresholds.Repositories.InsertPendingConfirmation | internal/storage/repositories.go:250-265 | inserts unless the key exists or the database fails, and changes nothing else |
| Thresholds.Repositories.ConsumePendingConfirmationForUser | internal/storage/repositories.go:271-306 | a wrong user or a failure before the commit changes nothing; otherwise the row is gone, and returned only if in time |
| Thresholds.Repositories.UpsertThresholdOverride | internal/storage/repositories.go:207-221 | sets exactly that key, or fails and changes nothing |
| Thresholds.ThresholdProvider.ValidateChange | internal/app/providers.go:174-181 | validates against the overrides stored at this moment |
| Thresholds.ThresholdProvider.BuildSetConfirmation | internal/app/providers.go:106-139 | performs exactly the set transition |
| Thresholds.ThresholdProvider.Confirm | internal/app/providers.go:141-172 | performs exactly the confirm transition, re-validating before it applies |
| Thresholds.ThresholdOverrideModule.EffectiveModule | internal/app/overrides.go:63-69 | the module that runs is the static one under all stored overrides |
| Thresholds.ThresholdOverrideModule.ValidateConfig | internal/app/overrides.go:43-49 | passes exactly when the effective module exists and passes |
| ThresholdRuns.ReachableIsSafe | internal/app/providers.go:106-172 | in every run of any users' commands, modules consistent without overrides stay consistent with them |
| ThresholdRuns.EffectiveModuleAlwaysValid | internal/app/overrides.go:43-69 | in every reachable state the effective module of a valid static module exists and passes ValidateConfig |
| ThresholdRuns.ReachableIsAccounted | internal/app/providers.go:106-172 | every run keeps the accounting invariant over rows, origins, applications and the table |
| ThresholdRuns.ConfirmationsAreConserved | internal/storage/repositories.go:250-306 | insertions = still pending + applied + discarded, each row in one place only, each application from its own request, inserted before it, by the same user, in time |
| ThresholdRuns.EveryOverrideHasItsRequest | internal/app/providers.go:141-172 | every stored override comes from one distinct request, inserted before it was applied, by the user it names, and confirmed strictly before created plus ttl |
| ThresholdRuns.OnlyTheRequesterConsumes | internal/storage/repositories.go:287-298 | through any further commands a pending confirmation stays as it is until its requester confirms it; nobody else takes it away and no set replaces it |
| ThresholdRuns.ConfirmAppliesExactlyWhen | internal/app/providers.go:141-172 | the requester's confirm consumes the row, and applies it exactly when it is in time, still acceptable and storable |
| ThresholdRuns.SetThenConfirmApplies | internal/app/providers.go:106-172 | an acceptable change set and confirmed in time ends up in the table, with nothing else changed |
| ThresholdProvenance.SetError | internal/app/providers.go:106-139 | why a set command is refused, in the order of its checks |
| ThresholdProvenance.SetOutcome | internal/app/providers.go:106-139 | a refused set changes nothing; an accepted one adds one row, created now and running out after the time to live, or after ten minutes |
| ThresholdProvenance.ConfirmOutcome | internal/app/providers.go:141-172 | why a confirm command fails, in the order of its checks, and what each outcome leaves in both tables |
| ThresholdProvenance.EveryRowComesFromASet | internal/app/providers.go:123-137 | in every run each inserted row was asked for by a set command of its own, which names it and whose clock dates it |
| ThresholdProvenance.EveryApplicationComesFromAConfirm | internal/app/providers.go:141-162 | in every run each application was asked for by a confirm command of its own, by that user, for that id, at that time |
| ThresholdProvenance.EveryApplicationIsASetAndATimelyConfirm | internal/app/providers.go:106-172 | in every run each application is a set command and a later confirm command by the same user, strictly before the time to live since the set has passed, and applies what the set named |
| ThresholdProvenance.StoredThresholdIsInForce | internal/app/overrides.go:63-69 | the stored override of each of the five thresholds is in force in the module that runs |
| ThresholdReach.SharePriceChange | internal/morpho/overrides.go:73-82 | one share price change is accepted exactly when the new pair is in order, and then is the pair in force |
| ThresholdReach.SharePriceReachable | internal/monitor/modules/morpho/share_price.go:36-53 | any valid pair is reached from any other by two accepted changes in a computed order, valid in between |
| ThresholdReach.LiquidityChange | internal/morpho/overrides.go:83-92 | one liquidity change is accepted exactly when the new pair is in order |
| ThresholdReach.LiquidityReachable | internal/monitor/modules/morpho/withdraw_liquidity.go:52-78 | the same reachability for the liquidity pair |
| ThresholdReach.SharePriceTextAccepted | internal/morpho/overrides.go:187-192 | any text: accepted exactly when it is an integer from 1 to 10000 that leaves the pair in order |
| ThresholdReach.LiquidityTextAccepted | internal/morpho/overrides.go:193-194 | any text: accepted exactly when it is a positive decimal amount that leaves the pair in order |
| ThresholdReach.SeverityTextAccepted | internal/morpho/overrides.go:195-199 | any text: accepted exactly when it is "warn" or "urgent" |
| ThresholdReach.JointlyInconsistentRequests | internal/app/providers.go:154-159 | two requests that are each acceptable can exclude each other, whichever is applied first |
| Core.WorstKnownStatus | internal/core/status.go:18-36 | the worst known status, and UNKNOWN only when nothing is known |
| Clone.CloneEvidence | internal/core/clone.go:73-82 | a new map with the same entries, nil for nil |
| Clone.CloneFinding | internal/core/clone.go:5-8 | the same finding with evidence of its own |
| Clone.CloneFindings | internal/core/clone.go:62-71 | the same findings in new memory, nil for nil |
| Clone.CloneMetrics | internal/core/clone.go:53-60 | the same metrics in new memory, nil for nil |
| Clone.CloneResult | internal/core/clone.go:10-14 | the copy says the same and all memory it reaches is new |
| Clone.CloneResults | internal/monitor/service.go:136-145 | the same list, all of it in new memory |
| Clone.ValueTellsEverything | internal/core/types.go:10-29 | the values that the copies are compared by agree exactly when no member, metric, finding or entry of the evidence differs |
| Monitor.ValidPrefix | internal/monitor/service.go:50-60 | the number of modules before the first that is nil, has an empty id or does not pass its own validation |
| Monitor.Service.Observe | internal/monitor/service.go:61-76 | the module's result under its id, or UNKNOWN with a stale-data warning |
| Monitor.Service.RunModule | internal/monitor/service.go:61-84 | one module: latest overridden at its id, its row stored or not, its failures, and a copy that shares nothing with what is kept |
| Monitor.Service.RunModules | internal/monitor/service.go:48-85 | the loop over the modules is the value-level pass |
| Monitor.Service.HandOver | internal/monitor/service.go:86-90 | the handler is given the results in memory of its own |
| Monitor.Service.RunOnce | internal/monitor/service.go:47-92 | results, error, latest, rows and handler calls are those of the value-level pass; what is returned is disjoint from what is kept |
| Monitor.Service.Snapshot | internal/monitor/service.go:94-102 | the latest results of the moment, all in new memory |
| Monitor.Service.RunLoop | internal/monitor/service.go:104-123 | the loop is the value-level loop: an interval check, then passes until one fails for good or the context is done |
| Monitor.PassThenScribble | internal/core/clone.go:5-82 | whatever is then written to returned results and snapshots, the latest results are those of the pass |
| MonitorRuns.PassResultsExactly | internal/monitor/service.go:47-85 | results for exactly the modules before the first invalid one, in order |
| MonitorRuns.PassKeepsWhatWasSaid | internal/monitor/service.go:61-85 | of a successful module everything it reported is kept, under its id; of a failed one an unknown status, as of now, with one warning that quotes the error |
| MonitorRuns.RowsAreTheStoredResults | internal/monitor/service.go:81-83 | the rows are the results whose turn could be stored, in order, each with the time of its insert |
| MonitorRuns.ErrorsOfAPass | internal/monitor/service.go:47-92 | each of the four sentinels is in the error of a pass exactly with its cause |
| MonitorRuns.PassTablesExactly | internal/monitor/service.go:78-83 | latest is the old table overridden by the results, and the rows are those that could be stored |
| MonitorRuns.PassShowsPrefixes | internal/monitor/service.go:77-80 | after each module the table a snapshot can see is the old one overridden by the results so far |
| MonitorRuns.SnapshotsDuringAPass | internal/monitor/service.go:77-102 | every table that a snapshot can see during a pass is the old one overridden by a prefix of the results, and there are no others |
| MonitorRuns.PassErrorsExactly | internal/monitor/service.go:50-83 | each sentinel is in the error exactly when its cause occurred |
| MonitorRuns.LastResultWins | internal/monitor/service.go:78-80 | of several results for one id the last stays |
| MonitorRuns.OthersKeepTheirResult | internal/monitor/service.go:78-80 | an id without a result in the pass keeps what it had |
| MonitorRuns.HandlerRunsExactlyWhen | internal/monitor/service.go:86-92 | the handler runs, once and with all results, exactly when it exists, no module was invalid and every row was stored |
| MonitorRuns.EndsTheLoopExactlyWhen | internal/monitor/service.go:125-134 | an error is unrecoverable exactly when a module was invalid or a row could not be stored |
| MonitorRuns.LoopStopsExactlyAtTheFirstFatalTick | internal/monitor/service.go:104-123 | the loop ends with a monitor error exactly at the first such tick, after its effects, and otherwise only with the context |
| Alerts.AlertService.HandleUrgent | internal/app/alerts.go:62-69 | one full exit with the finding's trigger |
| Alerts.AlertService.HandleMonitorResults | internal/app/alerts.go:25-40 | the nested loops do what AlertOrder.EffectsFollowTheFindings says: alert then withdrawal for each urgent finding in order, up to the first failure |
| AlertOrder.EffectsFollowTheFindings | internal/app/alerts.go:25-40 | the effects are a prefix of alert then exit over all positions of urgent findings in strictly increasing order, each once, with that module, key and message; the prefix ends at the failing effect; the withdrawal service goes through exactly the exits that were tried |
| AlertRuns.EffectsAreAPrefix | internal/app/alerts.go:25-40 | the effects are a prefix of alert, withdraw, alert, withdraw; complete exactly without error, else cut at the effect that failed |
| AlertRuns.OutstandingSendHolds | internal/withdraw/service.go:174-183 | a call that reads shares before the timeout neither sends nor forgets what is pending |
| AlertRuns.AtMostOneSendPerTick | internal/app/alerts.go:25-40 | however many urgent findings, a tick sends at most one transaction if it reads no empty position and no clock reading is a timeout after its own send |
| AlertRuns.UrgentsOfResults | internal/app/alerts.go:26-30 | exactly the urgent findings are acted on, each for its module |
| AlertRuns.UrgentStatusMeansUrgentFinding | internal/core/status.go:18-36 | among honest results some status is URGENT exactly when there is something to act on |
| AlertRuns.HandlerActsExactlyWhenUrgent | internal/app/alerts.go:25-40 | the handler has an effect or an error exactly when there is an urgent finding |
| AlertRuns.Ask | internal/monitor/service.go:54-61 | a turn of a real module carries its id, its verdict on its configuration, and the module's own account of what it read, or its error exactly when it cannot give one |
| AlertRuns.ResultIsJudged | internal/monitor/service.go:62-76 | the kept result of a real module is its own account of what it read, URGENT, WARN or OK exactly when the reading says so; a failed module's is UNKNOWN, as of now, with one warning that quotes its error |
| AlertRuns.PassAssesses | internal/monitor/service.go:50-85 | the results of a pass over real modules are one such result for each module before the first misconfigured one |
| AlertRuns.UrgentExactlyWhenAModuleCallsForExit | internal/core/status.go:18-36 | the status URGENT appears exactly when a module that was reached calls for an exit, exactly when a finding is urgent, exactly when there is something to act on |
| AlertRuns.AssessTick | internal/monitor/service.go:61-90 | for any mix of the three modules, failing or not: the results are those of the pass over what the modules say, the worst status is URGENT, WARN, OK or UNKNOWN exactly as the readings of the reached modules say, and the handler does anything exactly when it is URGENT |
| SharePrice.Monitor | internal/monitor/modules/morpho/share_price.go:63-115 | fails exactly on bad configuration or reading; URGENT or WARN exactly when an unrounded loss reaches the threshold, with that one finding and its evidence, and the price as metric |
| SharePrice.LossDecision | internal/monitor/modules/morpho/share_price.go:117-125 | the rounded loss reaches a threshold exactly when the unrounded one does, and is in 0..9999 |
| SharePrice.LossDecisionOnChain | internal/morpho/factory.go:191-205 | the same through the price's own floor, as one inequality on the vault's totals |
| SharePrice.PriceExactlyWhen | internal/morpho/factory.go:191-205 | when there is a price, and that it is the scaled quotient rounded down |
| SharePrice.PreviousLossDecision | internal/monitor/modules/morpho/share_price.go:79-82 | the second loss is exact against a positive previous price and zero without one |
| SharePrice.ValidateConfig | internal/monitor/modules/morpho/share_price.go:36-53 | passes exactly with a positive baseline, positive ordered thresholds and a reader |
| SharePrice.LossIsMonotone | internal/monitor/modules/morpho/share_price.go:117-125 | the loss is antitone in the price and monotone in the reference |
| Liquidity.Judge | internal/monitor/modules/morpho/withdraw_liquidity.go:127-147 | status and the exact findings from idle assets and simulation, urgent status exactly with an urgent finding |
| Liquidity.Monitor | internal/monitor/modules/morpho/withdraw_liquidity.go:84-158 | succeeds exactly on observable input; URGENT exactly below the urgent threshold or when the exit cannot be simulated; findings and metrics are determined |
| Liquidity.ValidateConfig | internal/monitor/modules/morpho/withdraw_liquidity.go:52-78 | passes exactly with reader, simulator, three addresses and positive ordered thresholds |
| VaultState.ValidateConfig | internal/monitor/modules/morpho/vault_state.go:111-119 | passes exactly with a reader and a severity that is warn, urgent or empty |
| VaultState.AppendStringDiff | internal/monitor/modules/morpho/vault_state.go:218-223 | one more text field is covered |
| VaultState.AppendComparableDiff | internal/monitor/modules/morpho/vault_state.go:225-233 | one more collection field is covered, empty and nil alike |
| VaultState.DiffVaultState | internal/monitor/modules/morpho/vault_state.go:190-216 | a list strictly sorted by field name that holds exactly the fields that differ |
| VaultState.DiffIsUnique | internal/monitor/modules/morpho/vault_state.go:190-216 | there is only one such list |
| VaultState.DiffHasField | internal/monitor/modules/morpho/vault_state.go:190-233 | a field is listed exactly when the snapshots differ there, empty and nil alike |
| VaultState.EmptyDiffMeansEquivalent | internal/monitor/modules/morpho/vault_state.go:190-216 | the list is empty exactly when the snapshots are equivalent |
| VaultState.EquivalentIsAnEquivalence | internal/monitor/modules/morpho/vault_state.go:225-243 | which is reflexive, symmetric and transitive |
| VaultState.EquivalentMeansSameMembers | internal/monitor/modules/morpho/vault_state.go:190-243 | snapshots are equivalent exactly when fourteen texts are equal and six collections are equal or both without elements: no member goes unwatched |
| VaultState.NamesAre | internal/monitor/modules/morpho/vault_state.go:14-33 | the twenty names under which fields are reported |
| VaultState.DiffTellsRolesAndGates | internal/monitor/modules/morpho/vault_state.go:192-197 | owner, curator and gates: an entry exactly for a change of that member, with both values in their places |
| VaultState.DiffTellsAdapters | internal/monitor/modules/morpho/vault_state.go:198-200 | the same for adapter registry, liquidity adapter and liquidity data |
| VaultState.DiffTellsFees | internal/monitor/modules/morpho/vault_state.go:201-205 | the same for fees, their recipients and the rate |
| VaultState.DiffTellsCollections | internal/monitor/modules/morpho/vault_state.go:206-211 | the same for the six collections, shown as JSON, nil and empty alike |
| Lex.LessExactlyWhen | internal/monitor/modules/morpho/vault_state.go:212-214 | the order of names: at the first difference the smaller character, or the end, comes first |
| VaultState.DiffOfSwappedSnapshots | internal/monitor/modules/morpho/vault_state.go:190-233 | swapping the snapshots swaps expected and actual in every entry |
| VaultState.Monitor | internal/monitor/modules/morpho/vault_state.go:132-174 | OK exactly for equivalent snapshots, otherwise the configured severity with one finding, message and evidence included, for each difference, and their number as metric |
| Units.IsUnsignedBase10Decimal | internal/config/units.go:41-63 | the loop accepts exactly digits, or digits, a point and digits |
| Units.ParseIsExact | internal/config/units.go:18-39 | parsing succeeds exactly on the grammar with only zeros past the decimals, the result is the exact scaled value, and the two last checks never fire |
| Units.ParseReadsDigits | internal/config/units.go:18-39 | a whole and a fractional part are read as the digits they are |
| Units.TrimSpaceDrops | internal/config/units.go:19 | trimming drops the space on both sides and nothing else |
| Units.ParseIgnoresSpaceAround | internal/config/units.go:18-22 | space around the text makes no difference |
| Units.ParseInt64InvertsText | internal/morpho/overrides.go:243-247 | parsing the text of any int64 gives it back, with or without a plus sign |
| Units.ParseInvertsText | internal/config/units.go:18-39 | parsing the canonical rendering of an amount gives the amount back |
| Markdown.EscapeMarkdownV2 | internal/interactions/telegram/formatter.go:5-13 | the chain of whole-string replacements is one left-to-right pass over the reserved characters |
| Markdown.EscapeIsCharacterwise | internal/interactions/telegram/formatter.go:5-13 | one of the nineteen characters gets one backslash, any other stays, and a text is escaped piece by piece |
| Markdown.EscapeSetExtends | internal/interactions/telegram/formatter.go:9-11 | one more replacement extends the escaped set by its character |
| Markdown.UnescapeInvertsEscapeSet | internal/interactions/telegram/formatter.go:7-12 | single-pass unescaping recovers every text |
| Markdown.EscapeIsInjective | internal/interactions/telegram/formatter.go:7-12 | so different texts stay different |
| Markdown.EscapedTextHasNoBareCharacter | internal/interactions/telegram/formatter.go:5-13 | in the escaped text every reserved character stands behind its own backslash |

## Left out

- RPC transport and fallback, ABI decoding, signing, Telegram polling, logging, YAML and SQL driver code: outside libraries and input/output; their outcomes are parameters.
- Command line modes, configuration checks, report and event rendering, command dispatch: members with little to prove.
- Liveness of the exit: pending is cleared only after a zero-share read and no receipt is polled, so "eventually mined" is not promised by this code.
- A send that returned an error counts as not accepted, even if the node took it.
- The attempt id, and with it a collision of two ids, is one of the reasons for which an insert can fail; ids themselves are not modelled.
- Withdraw.Service.ExecuteFullExit: the answers of one call are fixed when it starts; what an answer may depend on is the argument it is asked with, not the moment.
- WithdrawRuns.BufferedGasRange: states nothing for estimates of 2^63 or more or buffers above 10000 bps; WithdrawRuns.BufferedGasExactlyWhen says when the low 64 bits are still the product, for buffers whose sum with 10000 fits int64.
- WithdrawRuns.SentIsWhatWasEstimated: takes the ABI encoder to be the same function for the estimate and for the build.
- Monitor.Service.RunLoop: takes the ticks that happen before the context is seen to be done as a finite list; a loop that never ends is covered by its finite prefixes.
- Monitor.Service.HandleMonitorResults: the handler is any code that writes at most to the memory it is given; what the alert service does with the results is proved on their values.
- Monitor.Service.Snapshot: one snapshot is one atomic read, as under its read lock; a pass takes the lock once for each module, and MonitorRuns.SnapshotsDuringAPass says what can be read in between.
- Monitor.ValidPrefix: a module whose pointer is nil behind a non-nil interface is the same nil module.
- VaultState.DiffVaultState: the library sort is an insertion sort by field name; names are distinct, so any sort gives the same list. The JSON encoder of evidence is an arbitrary function.
- Markdown.EscapeMarkdownV2: strings are sequences of Unicode characters, not of bytes; all reserved characters are ASCII, so the two readings agree on valid text.
- Units.ParseIsExact: `big.Rat.SetString` is taken to be exact on text that passes the grammar check.
- Thresholds.ThresholdProvider.Confirm: commands are handled one at a time by the bot, so each is one atomic step; timestamps are instants, not their stored text.
- `upsertEffectiveOverride` (internal/app/overrides.go:85-96): the same loop as `upsertOverride`, whose proof is not repeated.
- Modules of types other than the three Morpho modules, which overrides pass through unchanged.
