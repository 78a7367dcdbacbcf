/** What one call of the withdrawal service comes to, case by case, said on what the clock,
    the adapter, the signer, the node and the repository answer (internal/withdraw/service.go). */
module WithdrawOutcomes {
  import opened Wrappers
  import opened Ints
  import opened Gas
  import opened Exit
  import opened Withdraw
  import opened WithdrawRuns

  predicate Configured(config: ServiceConfig) {
    config.hasAdapter && config.hasSigner && config.hasSubmitter && config.hasRepository && config.chainID.Some?
  }

  predicate ReadsNoShares(a: Answers) {
    a.position.Success? && (a.position.value.shareBalance == None || a.position.value.shareBalance == Some(0))
  }

  predicate ReadsShares(a: Answers) {
    a.position.Success? && a.position.value.shareBalance.Some? && a.position.value.shareBalance.value > 0
  }

  predicate OwnerSigns(a: Answers) {
    a.position.Success? && a.signerAddress == Success(a.position.value.owner)
  }

  /** The adapter's answer about leaving with all the shares that were read. */
  function Simulation(a: Answers): SimulationAnswer
    requires a.position.Success?
  {
    var p := a.position.value;
    a.simulate(FullExitRequest(p.vault, p.owner, p.receiver, p.shareBalance))
  }

  predicate Simulates(a: Answers)
    requires a.position.Success?
  {
    !Simulation(a).failed && Simulation(a).simulation.success
  }

  /** Something is pending, and the timeout has not passed since. */
  predicate Waits(config: ServiceConfig, state: State, now: int) {
    state.pending.Some? && config.replacementTimeout > 0
      && now - state.pending.value.submittedAt < config.replacementTimeout
  }

  function Nothing(): WithdrawalResult {
    WithdrawalResult(NoStatus, false, 0, 0, 0, FeeCaps(None, None), None)
  }

  /** Saturation makes no difference to the comparison with a timeout. */
  lemma WaitsExactlyWhen(config: ServiceConfig, state: State, now: int)
    ensures MustWait(config, state.pending, now) <==> Waits(config, state, now)
  {
  }

  /** No shares: the noop is stored and the epoch ends, or it cannot be stored and all stays. */
  lemma NoSharesOutcome(config: ServiceConfig, state: State, call: Call)
    requires Configured(config) && ReadsNoShares(call.answers)
    ensures var done, a := Step(config, state, call), call.answers;
            var attempt := Attempt(call.trigger, Noop, 0, 0, 0, FeeCaps(None, None), None, false, false, a.now);
            if a.insert(attempt)
            then
              && done.outcome == Outcome(Nothing().(status := Noop, noop := true), None)
              && done.state == State(None, state.sends, state.attempts + [attempt], state.epoch + 1)
            else done.outcome == Outcome(Nothing(), Some(InsertFailed)) && done.state == state
  {
  }

  /** A call that cannot or must not go on says why and leaves everything as it was. */
  lemma RefusedOutcome(config: ServiceConfig, state: State, call: Call)
    requires var a := call.answers;
             || !Configured(config) || a.position.Failure?
             || (!ReadsNoShares(a) && !(ReadsShares(a) && OwnerSigns(a)))
    ensures var done, a := Step(config, state, call), call.answers;
            && done.state == state && done.outcome.result == Nothing()
            && done.outcome.error == Some(
                 if !config.hasAdapter then AdapterRequired
                 else if !config.hasSigner then SignerRequired
                 else if !config.hasSubmitter then SubmitterRequired
                 else if !config.hasRepository then RepositoryRequired
                 else if config.chainID.None? then ChainIDRequired
                 else if a.position.Failure? then PositionFailed
                 else if !ReadsShares(a) then NegativeShares
                 else if a.signerAddress.Failure? then SignerAddressFailed
                 else SignerOwnerMismatch)
  {
  }

  /** A simulation that errs or fails: stored as a failure and reported as an error, whatever is
      pending. */
  lemma FailedSimulationOutcome(config: ServiceConfig, state: State, call: Call)
    requires Configured(config) && ReadsShares(call.answers) && OwnerSigns(call.answers) && !Simulates(call.answers)
    ensures var done, a := Step(config, state, call), call.answers; var simulation := Simulation(a).simulation;
            var attempt := Attempt(call.trigger, SimulationFailedStatus, 0, 0, simulation.gasUnits, FeeCaps(None, None),
                                   simulation.expectedAssetUnits, simulation.success, true, a.now);
            if a.insert(attempt)
            then
              && done.outcome.error == Some(SimulationFailed)
              && done.outcome.result == Nothing().(status := SimulationFailedStatus, gasUnits := simulation.gasUnits,
                                                   expectedAssetUnits := simulation.expectedAssetUnits)
              && done.state == state.(attempts := state.attempts + [attempt])
            else done.outcome == Outcome(Nothing(), Some(InsertFailed)) && done.state == state
  {
  }

  /** Within the timeout the call reports what is pending, without an error and without a trace. */
  lemma WaitingOutcome(config: ServiceConfig, state: State, call: Call)
    requires Configured(config) && ReadsShares(call.answers) && OwnerSigns(call.answers) && Simulates(call.answers)
    requires Waits(config, state, call.answers.now)
    ensures var done, p := Step(config, state, call), state.pending.value;
            var simulation := Simulation(call.answers).simulation;
            && done.state == state
            && done.outcome
                 == Outcome(WithdrawalResult(Submitted, false, p.txHash, p.nonce, simulation.gasUnits, p.feeCaps,
                                                        simulation.expectedAssetUnits), None)
  {
  }

  /** A call that may send: it sends and reports that transaction, with an error only if the
      attempt could not be stored; or it sends nothing, says why, and all stays. */
  lemma SubmissionOutcome(config: ServiceConfig, state: State, call: Call)
    requires Configured(config) && ReadsShares(call.answers) && OwnerSigns(call.answers) && Simulates(call.answers)
    requires !Waits(config, state, call.answers.now)
    ensures var done, a := Step(config, state, call), call.answers; var simulation := Simulation(a).simulation;
            if |done.state.sends| == |state.sends|
            then done.state == state && done.outcome.error.Some? && done.outcome.result == Nothing()
            else
              && |done.state.sends| == |state.sends| + 1 && state.sends <= done.state.sends
              && var s := done.state.sends[|state.sends|];
                 var tx, fees := s.signed.tx, FeeCaps(s.signed.tx.maxFee, s.signed.tx.tip);
                 && done.state.pending == Some(PendingWithdrawal(tx.nonce, fees, a.now, s.signed.hash))
                 && done.state.epoch == state.epoch == s.epoch && s.at == a.now
                 && s.attempt == Attempt(call.trigger, Submitted, s.signed.hash, tx.nonce, tx.gas, fees,
                                         simulation.expectedAssetUnits, true, false, a.now)
                 && s.recorded == a.insert(s.attempt)
                 && done.state.attempts == (if s.recorded then state.attempts + [s.attempt] else state.attempts)
                 && done.outcome == Outcome(WithdrawalResult(Submitted, false, s.signed.hash, tx.nonce, tx.gas, fees,
                                                             simulation.expectedAssetUnits),
                                            if s.recorded then None else Some(InsertFailed))
  {
  }

  /** The nonce and the fees of the next transaction: those of the node with nothing pending,
      otherwise the same nonce and a checked bump. */
  function Priced(config: ServiceConfig, state: State, a: Answers): Result<(uint64, FeeCaps), ExecError>
    requires a.position.Success?
  {
    if state.pending.Some? then
      var bumped := BumpChecked(config.gasPolicy, state.pending.value.feeCaps);
      if bumped.Failure? then Failure(FeesRejected(bumped.error))
      else Success((state.pending.value.nonce, bumped.value))
    else
      var nonce := a.pendingNonce(a.position.value.owner);
      var fees := InitialFeeCaps(config.gasPolicy, a);
      if nonce.Failure? then Failure(NonceFailed)
      else if fees.Failure? then Failure(fees.error)
      else Success((nonce.value, fees.value))
  }

  /** The transaction that the call would send. */
  function TransactionFor(config: ServiceConfig, a: Answers, candidate: TxCandidate, nonce: uint64, fees: FeeCaps)
    : Transaction
    requires a.position.Success? && config.chainID.Some?
  {
    Transaction(config.chainID.value, nonce, fees.maxTip, fees.maxFee,
                BufferedGas(Simulation(a).simulation.gasUnits, config.gasLimitBufferBPS),
                candidate.to, if candidate.value.None? then Some(0) else candidate.value, candidate.data)
  }

  /** What goes wrong on the way to a send, in the order in which it is met; and if nothing does,
      what is sent. */
  lemma SubmissionExactly(config: ServiceConfig, state: State, call: Call)
    requires Configured(config) && ReadsShares(call.answers) && OwnerSigns(call.answers) && Simulates(call.answers)
    requires !Waits(config, state, call.answers.now)
    ensures var a, done := call.answers, Step(config, state, call); var p := a.position.value;
            var built := a.build(FullExitRequest(p.vault, p.owner, p.receiver, p.shareBalance));
            var priced := Priced(config, state, a);
            if built.Failure? then done.outcome.error == Some(BuildFailed)
            else if priced.Failure? then done.outcome.error == Some(priced.error)
            else
              var tx := TransactionFor(config, a, built.value, priced.value.0, priced.value.1);
              if a.sign(tx).Failure? then done.outcome.error == Some(SignFailed)
              else if !a.accept(SignedTx(tx, a.sign(tx).value)) then done.outcome.error == Some(SendFailed)
              else |done.state.sends| == |state.sends| + 1
                   && done.state.sends[|state.sends|].signed == SignedTx(tx, a.sign(tx).value)
  {
    WaitsExactlyWhen(config, state, call.answers.now);
  }

  /** Why there are no first fees, in the order of the checks. */
  lemma InitialFeesError(policy: GasPolicy, a: Answers)
    requires ValidateCaps(policy).None?
    ensures var fees := InitialFeeCaps(policy, a);
            && (a.gasPrice.Failure? ==> fees == Failure(GasPriceFailed))
            && (a.gasPrice.Success? && (a.gasPrice.value.None? || a.gasPrice.value.value <= 0) ==>
                  fees == Failure(GasPriceNotPositive))
            && (a.gasPrice.Success? && a.gasPrice.value.Some? && a.gasPrice.value.value > 0 ==>
                  && (a.tipCap.Failure? ==> fees == Failure(TipFailed))
                  && (a.tipCap.Success? && (a.tipCap.value.None? || a.tipCap.value.value <= 0) ==>
                        fees == Failure(ExecError.TipNotPositive)))
  {
  }

  /** The first fees of an epoch: exactly when they can be had, and what they are. */
  lemma InitialFeesExactlyWhen(policy: GasPolicy, a: Answers)
    ensures InitialFeeCaps(policy, a).Success? <==>
            && (policy.maxFeeCap.Some? ==> policy.maxFeeCap.value > 0)
            && (policy.maxTipCap.Some? ==> policy.maxTipCap.value > 0)
            && a.gasPrice.Success? && a.gasPrice.value.Some? && a.gasPrice.value.value > 0
            && a.tipCap.Success? && a.tipCap.value.Some? && a.tipCap.value.value > 0
            && (policy.maxFeeCap.Some? ==>
                  || a.tipCap.value.value <= policy.maxFeeCap.value
                  || (policy.maxTipCap.Some? && policy.maxTipCap.value <= policy.maxFeeCap.value))
    ensures InitialFeeCaps(policy, a).Success? ==> FirstFeesFrom(policy, a, InitialFeeCaps(policy, a).value)
  {
  }

  /** The suggested tip, capped, and on top of it the suggested gas price, capped. */
  predicate FirstFeesFrom(policy: GasPolicy, a: Answers, fees: FeeCaps) {
    && a.gasPrice.Success? && a.gasPrice.value.Some? && a.tipCap.Success? && a.tipCap.value.Some?
    && fees.maxFee.Some? && fees.maxTip.Some?
    && IsCapped(fees.maxTip.value, a.tipCap.value.value, policy.maxTipCap)
    && IsCapped(fees.maxFee.value, a.gasPrice.value.value + fees.maxTip.value, policy.maxFeeCap)
  }

  /** A send with nothing pending takes the nonce that the node has for the signer, and first
      fees from the node's suggestions. */
  predicate Opens(config: ServiceConfig, call: Call, s: Send) {
    && call.answers.position.Success?
    && call.answers.pendingNonce(call.answers.position.value.owner) == Success(s.signed.tx.nonce)
    && FirstFeesFrom(config.gasPolicy, call.answers, FeeCaps(s.signed.tx.maxFee, s.signed.tx.tip))
  }

  lemma SendOpens(config: ServiceConfig, state: State, call: Call)
    requires state.pending.None? && |Step(config, state, call).state.sends| > |state.sends|
    ensures Opens(config, call, Step(config, state, call).state.sends[|state.sends|])
  {
    InitialFeesExactlyWhen(config.gasPolicy, call.answers);
  }

  // ----- the same for every send of every run -----

  /** The i-th send of a run is the one that its call makes in the state that the calls before
      have left, with the sends before it already made. */
  lemma {:induction false} SendIsMadeByItsCall(config: ServiceConfig, calls: seq<Call>, i: nat)
    requires i < |Run(config, INITIAL_STATE, calls).sends|
    ensures i < |Going(config, calls)| && Going(config, calls)[i] < |calls|
    ensures var sends, k := Run(config, INITIAL_STATE, calls).sends, Going(config, calls)[i];
            var before := Run(config, INITIAL_STATE, calls[..k]);
            && before.sends == sends[..i]
            && Step(config, before, calls[k]).state.sends == sends[..i + 1]
  {
    var n := |calls| - 1;
    var before, after := Run(config, INITIAL_STATE, calls[..n]), Run(config, INITIAL_STATE, calls);
    SendsAreTheCallsThatGo(config, calls);
    SendsAreTheCallsThatGo(config, calls[..n]);
    StepSendsAtMostOnce(config, before, calls[n]);
    if i < |before.sends| {
      SendIsMadeByItsCall(config, calls[..n], i);
      var k := Going(config, calls)[i];
      assert Going(config, calls[..n])[i] == k && calls[..n][..k] == calls[..k] && calls[..n][k] == calls[k];
      assert after.sends[..i] == before.sends[..i] && after.sends[..i + 1] == before.sends[..i + 1];
    } else {
      assert Going(config, calls)[i] == n;
      assert after.sends[..i] == before.sends && after.sends[..i + 1] == after.sends;
    }
  }

  /** A send continues the one before it: the same nonce, a full timeout later, and both fees
      bumped once and capped. */
  predicate Continues(config: ServiceConfig, last: Send, s: Send) {
    var before, next := last.signed.tx, s.signed.tx;
    && next.nonce == before.nonce
    && (config.replacementTimeout > 0 ==> s.at - last.at >= config.replacementTimeout)
    && before.maxFee.Some? && before.tip.Some? && next.maxFee.Some? && next.tip.Some?
    && IsCapped(next.maxFee.value, BumpBPS(before.maxFee.value, config.gasPolicy.bumpBPS), config.gasPolicy.maxFeeCap)
    && IsCapped(next.tip.value, BumpBPS(before.tip.value, config.gasPolicy.bumpBPS), config.gasPolicy.maxTipCap)
  }

  lemma OpeningSend(config: ServiceConfig, calls: seq<Call>, call: Call, sends: seq<Send>, i: nat)
    requires i < |sends| && Inv(config, Run(config, INITIAL_STATE, calls))
    requires Run(config, INITIAL_STATE, calls).sends == sends[..i]
    requires Step(config, Run(config, INITIAL_STATE, calls), call).state.sends == sends[..i + 1]
    requires i == 0 || sends[i - 1].epoch != sends[i].epoch
    ensures Opens(config, call, sends[i])
  {
    var before := Run(config, INITIAL_STATE, calls);
    StepIsQuietOrSends(config, before, call);
    assert sends[..i + 1][i] == sends[i];
    assert before.epoch == sends[i].epoch;
    assert i > 0 ==> before.sends[i - 1] == sends[i - 1];
    SendOpens(config, before, call);
  }

  lemma ContinuingSend(config: ServiceConfig, state: State, i: nat)
    requires Inv(config, state) && 0 < i < |state.sends| && state.sends[i - 1].epoch == state.sends[i].epoch
    ensures Continues(config, state.sends[i - 1], state.sends[i])
  {
    assert Linked(config, state.sends[i - 1], state.sends[i]);
    BumpedFeesAre(config.gasPolicy, state.sends[i - 1].attempt.feeCaps);
  }

  /** Nonce and fees of every send of every run: the first send of an epoch takes the pending
      nonce that the node answered for the signer of its call, and first fees from what the node
      suggested; every other send continues the one before. */
  lemma EverySendOpensOrContinues(config: ServiceConfig, calls: seq<Call>, i: nat)
    requires i < |Run(config, INITIAL_STATE, calls).sends|
    ensures i < |Going(config, calls)| && Going(config, calls)[i] < |calls|
    ensures var sends := Run(config, INITIAL_STATE, calls).sends;
            if i == 0 || sends[i - 1].epoch != sends[i].epoch
            then Opens(config, calls[Going(config, calls)[i]], sends[i])
            else Continues(config, sends[i - 1], sends[i])
  {
    SendIsMadeByItsCall(config, calls, i);
    RunKeepsInv(config, calls);
    var state, k := Run(config, INITIAL_STATE, calls), Going(config, calls)[i];
    if i == 0 || state.sends[i - 1].epoch != state.sends[i].epoch {
      RunKeepsInv(config, calls[..k]);
      OpeningSend(config, calls[..k], calls[k], state.sends, i);
    } else {
      ContinuingSend(config, state, i);
    }
  }
}
