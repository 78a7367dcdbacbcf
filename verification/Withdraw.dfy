/** The withdrawal service (internal/withdraw/service.go): one full-exit attempt as a
    transition, and the class whose method performs it on its own fields. */
module Withdraw {
  import opened Wrappers
  import opened Ints
  import opened Gas
  import opened Exit

  type Hash = nat

  datatype Trigger = Trigger(kind: string, moduleID: string, findingKey: string)

  datatype Status = NoStatus | Noop | SimulationFailedStatus | Simulated | Submitted

  datatype WithdrawalResult = WithdrawalResult(
    status: Status, noop: bool, txHash: Hash, nonce: uint64, gasUnits: uint64,
    feeCaps: FeeCaps, expectedAssetUnits: Option<int>)

  const NO_FEES := FeeCaps(None, None)
  const NO_RESULT := WithdrawalResult(NoStatus, false, 0, 0, 0, NO_FEES, None)
  const NOOP_RESULT := NO_RESULT.(status := Noop, noop := true)

  datatype Attempt = Attempt(
    trigger: Trigger, status: Status, txHash: Hash, nonce: uint64, gasUnits: uint64,
    feeCaps: FeeCaps, expectedAssetUnits: Option<int>, simulationSuccess: bool,
    failed: bool, createdAt: int)

  datatype Transaction = Transaction(
    chainID: int, nonce: uint64, tip: Option<int>, maxFee: Option<int>, gas: uint64,
    to: Address, value: Option<int>, data: Bytes)

  datatype SignedTx = SignedTx(tx: Transaction, hash: Hash)

  datatype PendingWithdrawal = PendingWithdrawal(
    nonce: uint64, feeCaps: FeeCaps, submittedAt: int, txHash: Hash)

  datatype ExecError =
    | AdapterRequired | SignerRequired | SubmitterRequired | RepositoryRequired | ChainIDRequired
    | PositionFailed | NegativeShares | SignerAddressFailed | SignerOwnerMismatch
    | SimulationFailed | SimulateCallFailed | BuildFailed | NonceFailed
    | GasPriceFailed | GasPriceNotPositive | TipFailed | TipNotPositive
    | FeesRejected(reason: FeeError)
    | SignFailed | SendFailed | InsertFailed

  datatype Outcome = Outcome(result: WithdrawalResult, error: Option<ExecError>)

  datatype ServiceConfig = ServiceConfig(
    hasAdapter: bool, hasSigner: bool, hasSubmitter: bool, hasRepository: bool,
    chainID: Option<int>, gasPolicy: GasPolicy, gasLimitBufferBPS: int64, replacementTimeout: int64)

  /** What the clock, the adapter, the signer, the node and the repository answer during one
      call. Nothing is assumed about any of them. */
  datatype Answers = Answers(
    now: int,
    position: Result<PositionSnapshot, Unseen>,
    simulate: FullExitRequest -> SimulationAnswer,
    build: FullExitRequest -> Result<TxCandidate, Unseen>,
    signerAddress: Result<Address, Unseen>,
    pendingNonce: Address -> Result<uint64, Unseen>,
    gasPrice: Result<Option<int>, Unseen>,
    tipCap: Result<Option<int>, Unseen>,
    sign: Transaction -> Result<Hash, Unseen>,
    accept: SignedTx -> bool,
    insert: Attempt -> bool)

  datatype Call = Call(trigger: Trigger, answers: Answers)

  /** An accepted transaction, the attempt that goes with it, and whether that attempt
      reached the repository. The epoch counts the clears of pending before the send. */
  datatype Send = Send(signed: SignedTx, at: int, epoch: nat, attempt: Attempt, recorded: bool)

  datatype State = State(
    pending: Option<PendingWithdrawal>, sends: seq<Send>, attempts: seq<Attempt>, epoch: nat)

  const INITIAL_STATE := State(None, [], [], 0)

  datatype StepResult = StepResult(state: State, outcome: Outcome)

  // ----- the pure parts -----

  function ConfigError(config: ServiceConfig): (r: Option<ExecError>)
    ensures r.None? <==> config.hasAdapter && config.hasSigner && config.hasSubmitter && config.hasRepository
                         && config.chainID.Some?
  {
    if !config.hasAdapter then Some(AdapterRequired)
    else if !config.hasSigner then Some(SignerRequired)
    else if !config.hasSubmitter then Some(SubmitterRequired)
    else if !config.hasRepository then Some(RepositoryRequired)
    else if config.chainID.None? then Some(ChainIDRequired)
    else None
  }

  predicate NoShares(position: PositionSnapshot) {
    position.shareBalance.None? || position.shareBalance.value == 0
  }

  function Elapsed(now: int, since: int): int64 {
    SaturateInt64(now - since)
  }

  /** A send is outstanding and its replacement is not due yet. */
  predicate MustWait(config: ServiceConfig, pending: Option<PendingWithdrawal>, now: int) {
    && pending.Some?
    && config.replacementTimeout > 0
    && Elapsed(now, pending.value.submittedAt) < config.replacementTimeout
  }

  function WaitingResult(pending: PendingWithdrawal, simulation: FullExitSimulation): WithdrawalResult {
    WithdrawalResult(Submitted, false, pending.txHash, pending.nonce, simulation.gasUnits,
                     pending.feeCaps, simulation.expectedAssetUnits)
  }

  function InitialFeeCaps(policy: GasPolicy, a: Answers): (r: Result<FeeCaps, ExecError>)
    ensures r.Success? ==> ValidFees(r.value) && WithinCaps(policy, r.value)
  {
    match ValidateCaps(policy)
    case Some(e) => Failure(FeesRejected(e))
    case None =>
      if a.gasPrice.Failure? then Failure(GasPriceFailed)
      else if a.gasPrice.value.None? || a.gasPrice.value.value <= 0 then Failure(GasPriceNotPositive)
      else if a.tipCap.Failure? then Failure(TipFailed)
      else if a.tipCap.value.None? || a.tipCap.value.value <= 0 then Failure(ExecError.TipNotPositive)
      else
        match FirstFees(policy, a.gasPrice.value.value, a.tipCap.value.value)
        case Failure(e) => Failure(FeesRejected(e))
        case Success(fees) => Success(fees)
  }

  function Rejected(r: Result<FeeCaps, FeeError>, nonce: uint64): Result<(uint64, FeeCaps), ExecError> {
    match r
    case Failure(e) => Failure(FeesRejected(e))
    case Success(fees) => Success((nonce, fees))
  }

  function NonceAndFeeCaps(config: ServiceConfig, pending: Option<PendingWithdrawal>, signer: Address, a: Answers)
    : Result<(uint64, FeeCaps), ExecError>
  {
    match pending
    case Some(p) =>
      if config.replacementTimeout <= 0 || Elapsed(a.now, p.submittedAt) >= config.replacementTimeout
      then Rejected(BumpChecked(config.gasPolicy, p.feeCaps), p.nonce)
      else Success((p.nonce, p.feeCaps))
    case None =>
      match a.pendingNonce(signer)
      case Failure(_) => Failure(NonceFailed)
      case Success(nonce) =>
        match InitialFeeCaps(config.gasPolicy, a)
        case Failure(e) => Failure(e)
        case Success(fees) => Success((nonce, fees))
  }

  function BufferedGas(gas: uint64, bufferBPS: int64): (r: uint64)
    ensures bufferBPS <= 0 ==> r == gas
  {
    if bufferBPS <= 0 then gas
    else LowUint64(gas * WrapInt64(10_000 + bufferBPS) / 10_000)
  }

  function BuildDynamicFeeTx(candidate: TxCandidate, chainID: int, nonce: uint64, gas: uint64, fees: FeeCaps)
    : Transaction
  {
    Transaction(chainID, nonce, fees.maxTip, fees.maxFee, gas, candidate.to,
                if candidate.value.None? then Some(0) else candidate.value, candidate.data)
  }

  function AttemptFor(trigger: Trigger, result: WithdrawalResult, simulation: FullExitSimulation, failed: bool,
                      now: int): Attempt
  {
    Attempt(trigger, result.status, result.txHash, result.nonce, result.gasUnits, result.feeCaps,
            result.expectedAssetUnits, simulation.success, failed, now)
  }

  // ----- one call, as a transition -----

  function Failed(state: State, error: ExecError): StepResult {
    StepResult(state, Outcome(NO_RESULT, Some(error)))
  }

  function Step(config: ServiceConfig, state: State, call: Call): StepResult {
    var a := call.answers;
    if ConfigError(config).Some? then Failed(state, ConfigError(config).value)
    else if a.position.Failure? then Failed(state, PositionFailed)
    else if NoShares(a.position.value) then NoopStep(state, call)
    else if a.position.value.shareBalance.value < 0 then Failed(state, NegativeShares)
    else if a.signerAddress.Failure? then Failed(state, SignerAddressFailed)
    else if a.signerAddress.value != a.position.value.owner then Failed(state, SignerOwnerMismatch)
    else
      var request := RequestFor(a.position.value);
      var answer := a.simulate(request);
      if answer.failed || !answer.simulation.success then FailedSimulationStep(state, call, answer.simulation)
      else if MustWait(config, state.pending, a.now)
      then StepResult(state, Outcome(WaitingResult(state.pending.value, answer.simulation), None))
      else SubmitStep(config, state, call, request, answer.simulation)
  }

  /** Zero shares: pending is forgotten, but only after the noop has been recorded. */
  function NoopStep(state: State, call: Call): StepResult {
    var attempt := AttemptFor(call.trigger, NOOP_RESULT, NO_SIMULATION, false, call.answers.now);
    if call.answers.insert(attempt)
    then StepResult(State(None, state.sends, state.attempts + [attempt], state.epoch + 1), Outcome(NOOP_RESULT, None))
    else Failed(state, InsertFailed)
  }

  function FailedSimulationStep(state: State, call: Call, simulation: FullExitSimulation): StepResult {
    var result := NO_RESULT.(status := SimulationFailedStatus,
                             expectedAssetUnits := simulation.expectedAssetUnits,
                             gasUnits := simulation.gasUnits);
    var attempt := AttemptFor(call.trigger, result, simulation, true, call.answers.now);
    if call.answers.insert(attempt)
    then StepResult(state.(attempts := state.attempts + [attempt]), Outcome(result, Some(SimulationFailed)))
    else Failed(state, InsertFailed)
  }

  function SubmitStep(config: ServiceConfig, state: State, call: Call, request: FullExitRequest,
                      simulation: FullExitSimulation): StepResult
    requires config.chainID.Some? && call.answers.signerAddress.Success?
  {
    var a := call.answers;
    var built := a.build(request);
    if built.Failure? then Failed(state, BuildFailed)
    else
      var priced := NonceAndFeeCaps(config, state.pending, a.signerAddress.value, a);
      if priced.Failure? then Failed(state, priced.error)
      else
        var (nonce, fees) := priced.value;
        var tx := BuildDynamicFeeTx(built.value, config.chainID.value, nonce,
                                    BufferedGas(simulation.gasUnits, config.gasLimitBufferBPS), fees);
        var signature := a.sign(tx);
        if signature.Failure? then Failed(state, SignFailed)
        else
          var signed := SignedTx(tx, signature.value);
          if !a.accept(signed) then Failed(state, SendFailed)
          else AcceptedStep(state, call, signed, fees, simulation)
  }

  /** The node has taken the transaction: pending follows, whatever the repository says next. */
  function AcceptedStep(state: State, call: Call, signed: SignedTx, fees: FeeCaps, simulation: FullExitSimulation)
    : StepResult
  {
    var now := call.answers.now;
    var result :=
        WithdrawalResult(Submitted, false, signed.hash, signed.tx.nonce, signed.tx.gas, fees,
                         simulation.expectedAssetUnits);
    var attempt := AttemptFor(call.trigger, result, simulation, false, now);
    var recorded := call.answers.insert(attempt);
    StepResult(
      State(Some(PendingWithdrawal(signed.tx.nonce, fees, now, signed.hash)),
            state.sends + [Send(signed, now, state.epoch, attempt, recorded)],
            if recorded then state.attempts + [attempt] else state.attempts,
            state.epoch),
      Outcome(result, if recorded then None else Some(InsertFailed)))
  }

  /** The calls of a run, one after the other. */
  function Run(config: ServiceConfig, state: State, calls: seq<Call>): State {
    if calls == [] then state
    else Step(config, Run(config, state, calls[..|calls| - 1]), calls[|calls| - 1]).state
  }

  // ----- the service object -----

  class Service {
    const config: ServiceConfig
    var pending: Option<PendingWithdrawal>
    ghost var sends: seq<Send>
    ghost var attempts: seq<Attempt>
    ghost var epoch: nat

    ghost function View(): State
      reads this
    {
      State(pending, sends, attempts, epoch)
    }

    constructor (config: ServiceConfig)
      ensures this.config == config && View() == INITIAL_STATE
    {
      this.config := config;
      pending := None;
      sends, attempts, epoch := [], [], 0;
    }

    method RecordAttempt(a: Answers, attempt: Attempt) returns (ok: bool)
      modifies this`attempts
      ensures ok == a.insert(attempt)
      ensures attempts == if ok then old(attempts) + [attempt] else old(attempts)
    {
      ok := a.insert(attempt);
      if ok {
        attempts := attempts + [attempt];
      }
    }

    method ExecuteFullExit(trigger: Trigger, a: Answers) returns (outcome: Outcome)
      modifies this
      ensures StepResult(View(), outcome) == Step(config, old(View()), Call(trigger, a))
    {
      var configError := ConfigError(config);
      if configError.Some? {
        return Outcome(NO_RESULT, configError);
      }
      var now := a.now;
      if a.position.Failure? {
        return Outcome(NO_RESULT, Some(PositionFailed));
      }
      var position := a.position.value;
      if NoShares(position) {
        var recorded := RecordAttempt(a, AttemptFor(trigger, NOOP_RESULT, NO_SIMULATION, false, now));
        if !recorded {
          return Outcome(NO_RESULT, Some(InsertFailed));
        }
        pending := None;
        epoch := epoch + 1;
        return Outcome(NOOP_RESULT, None);
      }
      if position.shareBalance.value < 0 {
        return Outcome(NO_RESULT, Some(NegativeShares));
      }
      if a.signerAddress.Failure? {
        return Outcome(NO_RESULT, Some(SignerAddressFailed));
      }
      if a.signerAddress.value != position.owner {
        return Outcome(NO_RESULT, Some(SignerOwnerMismatch));
      }
      var request := RequestFor(position);
      var answer := a.simulate(request);
      var simulation := answer.simulation;
      if answer.failed || !simulation.success {
        var result := NO_RESULT.(status := SimulationFailedStatus,
                                 expectedAssetUnits := simulation.expectedAssetUnits,
                                 gasUnits := simulation.gasUnits);
        var recorded := RecordAttempt(a, AttemptFor(trigger, result, simulation, true, now));
        if !recorded {
          return Outcome(NO_RESULT, Some(InsertFailed));
        }
        return Outcome(result, Some(SimulationFailed));
      }
      if MustWait(config, pending, now) {
        return Outcome(WaitingResult(pending.value, simulation), None);
      }
      var built := a.build(request);
      if built.Failure? {
        return Outcome(NO_RESULT, Some(BuildFailed));
      }
      var priced := NonceAndFeeCaps(config, pending, a.signerAddress.value, a);
      if priced.Failure? {
        return Outcome(NO_RESULT, Some(priced.error));
      }
      var (nonce, fees) := priced.value;
      var tx := BuildDynamicFeeTx(built.value, config.chainID.value, nonce,
                                  BufferedGas(simulation.gasUnits, config.gasLimitBufferBPS), fees);
      var signature := a.sign(tx);
      if signature.Failure? {
        return Outcome(NO_RESULT, Some(SignFailed));
      }
      var signed := SignedTx(tx, signature.value);
      if !a.accept(signed) {
        return Outcome(NO_RESULT, Some(SendFailed));
      }
      var result := WithdrawalResult(Submitted, false, signed.hash, nonce, tx.gas, fees, simulation.expectedAssetUnits);
      var attempt := AttemptFor(trigger, result, simulation, false, now);
      sends := sends + [Send(signed, now, epoch, attempt, a.insert(attempt))];
      pending := Some(PendingWithdrawal(nonce, fees, now, signed.hash));
      var recorded := RecordAttempt(a, attempt);
      if !recorded {
        return Outcome(result, Some(InsertFailed));
      }
      return Outcome(result, None);
    }

    /** Looks at the position and simulates; takes no lock and changes nothing. */
    method DryRunFullExit(a: Answers) returns (outcome: Outcome)
      ensures !config.hasAdapter ==> outcome == Outcome(NO_RESULT, Some(AdapterRequired))
      ensures outcome.error == None <==>
              && config.hasAdapter && a.position.Success?
              && (NoShares(a.position.value) || !a.simulate(RequestFor(a.position.value)).failed)
      ensures outcome.error == None && NoShares(a.position.value) ==> outcome.result == NOOP_RESULT
      ensures outcome.error == None && !NoShares(a.position.value) ==>
              var simulation := a.simulate(RequestFor(a.position.value)).simulation;
              && !outcome.result.noop
              && (outcome.result.status == Simulated <==> simulation.success)
              && (outcome.result.status == SimulationFailedStatus <==> !simulation.success)
              && outcome.result.gasUnits == simulation.gasUnits
              && outcome.result.expectedAssetUnits == simulation.expectedAssetUnits
      ensures outcome.error != None ==> outcome.result == NO_RESULT
    {
      if !config.hasAdapter {
        return Outcome(NO_RESULT, Some(AdapterRequired));
      }
      if a.position.Failure? {
        return Outcome(NO_RESULT, Some(PositionFailed));
      }
      if NoShares(a.position.value) {
        return Outcome(NOOP_RESULT, None);
      }
      var answer := a.simulate(RequestFor(a.position.value));
      if answer.failed {
        return Outcome(NO_RESULT, Some(SimulateCallFailed));
      }
      var status := if answer.simulation.success then Simulated else SimulationFailedStatus;
      return Outcome(NO_RESULT.(status := status,
                                expectedAssetUnits := answer.simulation.expectedAssetUnits,
                                gasUnits := answer.simulation.gasUnits), None);
    }
  }
}
