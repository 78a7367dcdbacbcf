/** Any number of goroutines call ExecuteFullExit at once, each as a chain of small steps
    under the service's mutex, while dry runs go on beside them. Every interleaving is
    equivalent to running the calls one after the other. */
module WithdrawInterleaving {
  import opened Wrappers
  import opened Exit
  import opened Withdraw
  import opened WithdrawRuns
  import Gas
  import Serial

  /** Where a call stands between taking and giving back the mutex. Each small step looks at
      or changes the shared state at most once. */
  datatype Local =
    | Entered
    | RecordingNoop
    | Clearing
    | Simulating(request: FullExitRequest, signer: Address, chainID: int)
    | RecordingFailure(simulation: FullExitSimulation)
    | Checking(request: FullExitRequest, signer: Address, chainID: int, simulation: FullExitSimulation)
    | Building(request: FullExitRequest, signer: Address, chainID: int, simulation: FullExitSimulation)
    | Pricing(signer: Address, chainID: int, simulation: FullExitSimulation, candidate: TxCandidate)
    | Signing(simulation: FullExitSimulation, result: WithdrawalResult, tx: Transaction)
    | Sending(simulation: FullExitSimulation, result: WithdrawalResult, signed: SignedTx)
    | Remembering(simulation: FullExitSimulation, result: WithdrawalResult)
    | Recording(simulation: FullExitSimulation, result: WithdrawalResult)
    | Leaving(outcome: Outcome)

  function Rank(local: Local): nat {
    match local
    case Entered => 9
    case Simulating(_, _, _) => 8
    case Checking(_, _, _, _) => 7
    case Building(_, _, _, _) => 6
    case Pricing(_, _, _, _) => 5
    case Signing(_, _, _) => 4
    case Sending(_, _, _) => 3
    case Remembering(_, _) => 2
    case Recording(_, _) => 1
    case RecordingNoop => 2
    case Clearing => 1
    case RecordingFailure(_) => 1
    case Leaving(_) => 0
  }

  function Quit(error: ExecError): Local {
    Leaving(Outcome(NO_RESULT, Some(error)))
  }

  function Enter(config: ServiceConfig, a: Answers): Local {
    if ConfigError(config).Some? then Quit(ConfigError(config).value)
    else if a.position.Failure? then Quit(PositionFailed)
    else if NoShares(a.position.value) then RecordingNoop
    else if a.position.value.shareBalance.value < 0 then Quit(NegativeShares)
    else if a.signerAddress.Failure? then Quit(SignerAddressFailed)
    else if a.signerAddress.value != a.position.value.owner then Quit(SignerOwnerMismatch)
    else Simulating(RequestFor(a.position.value), a.signerAddress.value, config.chainID.value)
  }

  function FailureResult(simulation: FullExitSimulation): WithdrawalResult {
    NO_RESULT.(status := SimulationFailedStatus,
               expectedAssetUnits := simulation.expectedAssetUnits,
               gasUnits := simulation.gasUnits)
  }

  function Insert(state: State, call: Call, attempt: Attempt, following: Local): (State, Local) {
    if call.answers.insert(attempt) then (state.(attempts := state.attempts + [attempt]), following)
    else (state, Quit(InsertFailed))
  }

  /** One small step of the call that holds the mutex. */
  function Advance(config: ServiceConfig, call: Call, state: State, local: Local): (r: (State, Local))
    ensures !local.Leaving? ==> Rank(r.1) < Rank(local)
  {
    var a := call.answers;
    match local
    case Entered => (state, Enter(config, a))
    case RecordingNoop =>
      Insert(state, call, AttemptFor(call.trigger, NOOP_RESULT, NO_SIMULATION, false, a.now), Clearing)
    case Clearing =>
      (state.(pending := None, epoch := state.epoch + 1), Leaving(Outcome(NOOP_RESULT, None)))
    case Simulating(request, signer, chainID) =>
      var answer := a.simulate(request);
      (state, if answer.failed || !answer.simulation.success then RecordingFailure(answer.simulation)
              else Checking(request, signer, chainID, answer.simulation))
    case RecordingFailure(simulation) =>
      Insert(state, call, AttemptFor(call.trigger, FailureResult(simulation), simulation, true, a.now),
             Leaving(Outcome(FailureResult(simulation), Some(SimulationFailed))))
    case Checking(request, signer, chainID, simulation) =>
      (state, if MustWait(config, state.pending, a.now)
              then Leaving(Outcome(WaitingResult(state.pending.value, simulation), None))
              else Building(request, signer, chainID, simulation))
    case Building(request, signer, chainID, simulation) =>
      var built := a.build(request);
      (state, if built.Failure? then Quit(BuildFailed) else Pricing(signer, chainID, simulation, built.value))
    case Pricing(signer, chainID, simulation, candidate) =>
      var priced := NonceAndFeeCaps(config, state.pending, signer, a);
      if priced.Failure? then (state, Quit(priced.error))
      else
        var (nonce, fees) := priced.value;
        var gas := BufferedGas(simulation.gasUnits, config.gasLimitBufferBPS);
        var tx := BuildDynamicFeeTx(candidate, chainID, nonce, gas, fees);
        (state, Signing(simulation,
                        WithdrawalResult(Submitted, false, 0, nonce, gas, fees, simulation.expectedAssetUnits), tx))
    case Signing(simulation, result, tx) =>
      var signature := a.sign(tx);
      (state, if signature.Failure? then Quit(SignFailed)
              else Sending(simulation, result.(txHash := signature.value), SignedTx(tx, signature.value)))
    case Sending(simulation, result, signed) =>
      if !a.accept(signed) then (state, Quit(SendFailed))
      else
        var attempt := AttemptFor(call.trigger, result, simulation, false, a.now);
        (state.(sends := state.sends + [Send(signed, a.now, state.epoch, attempt, a.insert(attempt))]),
         Remembering(simulation, result))
    case Remembering(simulation, result) =>
      (state.(pending := Some(PendingWithdrawal(result.nonce, result.feeCaps, a.now, result.txHash))),
       Recording(simulation, result))
    case Recording(simulation, result) =>
      var attempt := AttemptFor(call.trigger, result, simulation, false, a.now);
      if a.insert(attempt) then (state.(attempts := state.attempts + [attempt]), Leaving(Outcome(result, None)))
      else (state, Leaving(Outcome(result, Some(InsertFailed))))
    case Leaving(_) => (state, local)
  }

  /** The rest of the call, if nobody else touches the shared state. */
  function Finish(config: ServiceConfig, call: Call, state: State, local: Local): StepResult
    decreases Rank(local)
  {
    if local.Leaving? then StepResult(state, local.outcome)
    else
      var (state', local') := Advance(config, call, state, local);
      Finish(config, call, state', local')
  }

  lemma FinishIsSubmit(config: ServiceConfig, call: Call, state: State, request: FullExitRequest,
                       simulation: FullExitSimulation)
    requires config.chainID.Some? && call.answers.signerAddress.Success?
    ensures Finish(config, call, state,
                   Building(request, call.answers.signerAddress.value, config.chainID.value, simulation))
         == SubmitStep(config, state, call, request, simulation)
  {
    var a := call.answers;
    if a.build(request).Success? {
      var priced := NonceAndFeeCaps(config, state.pending, a.signerAddress.value, a);
      var pricing := Pricing(a.signerAddress.value, config.chainID.value, simulation, a.build(request).value);
      assert Finish(config, call, state, Building(request, a.signerAddress.value, config.chainID.value, simulation))
          == Finish(config, call, state, pricing);
      if priced.Success? {
        var signing := Advance(config, call, state, pricing).1;
        assert Finish(config, call, state, pricing) == Finish(config, call, state, signing);
        FinishIsSigned(config, call, state, simulation, signing.tx, priced.value.1);
      }
    }
  }

  /** What SubmitStep does once the transaction is built. */
  function SignedStep(state: State, call: Call, tx: Transaction, fees: Gas.FeeCaps, simulation: FullExitSimulation)
    : StepResult
  {
    var signature := call.answers.sign(tx);
    if signature.Failure? then Failed(state, SignFailed)
    else if !call.answers.accept(SignedTx(tx, signature.value)) then Failed(state, SendFailed)
    else AcceptedStep(state, call, SignedTx(tx, signature.value), fees, simulation)
  }

  lemma FinishIsSigned(config: ServiceConfig, call: Call, state: State, simulation: FullExitSimulation, tx: Transaction,
                       fees: Gas.FeeCaps)
    requires config.chainID.Some?
    ensures var result := WithdrawalResult(Submitted, false, 0, tx.nonce, tx.gas, fees, simulation.expectedAssetUnits);
            Finish(config, call, state, Signing(simulation, result, tx))
              == SignedStep(state, call, tx, fees, simulation)
  {
    var a := call.answers;
    if a.sign(tx).Success? {
      var signing :=
          Signing(simulation,
                  WithdrawalResult(Submitted, false, 0, tx.nonce, tx.gas, fees, simulation.expectedAssetUnits), tx);
      var sending := Advance(config, call, state, signing).1;
      assert Finish(config, call, state, signing) == Finish(config, call, state, sending);
      if a.accept(sending.signed) {
        FinishIsAccepted(config, call, state, sending.signed, fees, simulation);
      }
    }
  }

  lemma FinishIsAccepted(config: ServiceConfig, call: Call, state: State, signed: SignedTx, fees: Gas.FeeCaps,
                         simulation: FullExitSimulation)
    requires config.chainID.Some? && call.answers.accept(signed)
    ensures var result :=
            WithdrawalResult(Submitted, false, signed.hash, signed.tx.nonce, signed.tx.gas, fees,
                             simulation.expectedAssetUnits);
            Finish(config, call, state, Sending(simulation, result, signed))
              == AcceptedStep(state, call, signed, fees, simulation)
  {
    var result :=
        WithdrawalResult(Submitted, false, signed.hash, signed.tx.nonce, signed.tx.gas, fees,
                         simulation.expectedAssetUnits);
    var (sent, remembering) := Advance(config, call, state, Sending(simulation, result, signed));
    var (kept, recording) := Advance(config, call, sent, remembering);
    var (done, leaving) := Advance(config, call, kept, recording);
    assert Finish(config, call, sent, remembering) == Finish(config, call, kept, recording);
    assert Finish(config, call, kept, recording) == StepResult(done, leaving.outcome);
  }

  /** Left alone, the small steps add up to the one big step. */
  lemma SmallStepsAreTheBigStep(config: ServiceConfig, call: Call, state: State)
    ensures Finish(config, call, state, Entered) == Step(config, state, call)
  {
    var a := call.answers;
    var first := Enter(config, a);
    assert Finish(config, call, state, Entered) == Finish(config, call, state, first);
    if first.RecordingNoop? {
      var (recorded, second) := Advance(config, call, state, first);
      assert Finish(config, call, state, first) == Finish(config, call, recorded, second);
    } else if first.Simulating? {
      var second := Advance(config, call, state, first).1;
      assert Finish(config, call, state, first) == Finish(config, call, state, second);
      if second.RecordingFailure? {
        var (recorded, third) := Advance(config, call, state, second);
        assert Finish(config, call, state, second) == StepResult(recorded, third.outcome);
      } else {
        assert Finish(config, call, state, second)
            == Finish(config, call, state, Advance(config, call, state, second).1);
        FinishIsSubmit(config, call, state, first.request, second.simulation);
      }
    }
  }

  // ----- the service as one of the machines that run under a mutex -----

  function WithdrawMachine(config: ServiceConfig): Serial.Machine<State, Call, Local, Outcome> {
    Serial.Machine(
      Entered,
      (call: Call, state: State, local: Local) => Advance(config, call, state, local),
      (local: Local) => if local.Leaving? then Some(local.outcome) else None,
      (call: Call, state: State, local: Local) => Pair(Finish(config, call, state, local)),
      (state: State, call: Call) => Pair(Step(config, state, call)))
  }

  function Pair(r: StepResult): (State, Outcome) {
    (r.state, r.outcome)
  }

  lemma WithdrawMachineLawful(config: ServiceConfig)
    ensures Serial.Lawful(WithdrawMachine(config))
  {
    var m := WithdrawMachine(config);
    forall call, state, local | m.outcome(local).None?
      ensures m.finish(call, state, local)
              == m.finish(call, m.advance(call, state, local).0, m.advance(call, state, local).1)
    {
    }
    forall call, state ensures m.finish(call, state, m.start) == m.big(state, call) {
      SmallStepsAreTheBigStep(config, call, state);
    }
  }

  function Calls(entries: seq<(nat, Call)>): (calls: seq<Call>)
    ensures |calls| == |entries|
    ensures forall i :: 0 <= i < |entries| ==> calls[i] == entries[i].1
  {
    if entries == [] then [] else Calls(entries[..|entries| - 1]) + [entries[|entries| - 1].1]
  }

  lemma {:induction false} SequentialIsRun(config: ServiceConfig, entries: seq<(nat, Call)>)
    ensures Serial.Sequential(WithdrawMachine(config), INITIAL_STATE, entries)
            == Run(config, INITIAL_STATE, Calls(entries))
  {
    if entries != [] {
      var n := |entries| - 1;
      SequentialIsRun(config, entries[..n]);
      assert Calls(entries)[..n] == Calls(entries[..n]);
    }
  }

  /** Any number of goroutines, any schedule, dry runs in between: the calls that took the
      mutex, in that order, form a run. Every thread's invocations appear in it in its own
      order, every finished call returned what it returns in that run, and whenever the mutex
      is free the sends, the attempts and pending are those of the run, pending being the last
      accepted send of the current epoch. */
  lemma ConcurrentCallsAreARun(config: ServiceConfig, actions: seq<Serial.Action<Call>>)
    ensures var sys := Serial.After(WithdrawMachine(config), INITIAL_STATE, actions);
            && (forall t: nat :: Serial.InOrder(sys, t))
            && |sys.left| <= |sys.entered|
            && (forall i :: 0 <= i < |sys.left| ==>
                  && sys.left[i].0 == sys.entered[i].0
                  && sys.left[i].1
                       == Step(config, Run(config, INITIAL_STATE, Calls(sys.entered[..i])), sys.entered[i].1).outcome)
            && (sys.lock.None? ==>
                  && |sys.left| == |sys.entered|
                  && sys.shared == Run(config, INITIAL_STATE, Calls(sys.entered))
                  && sys.shared.pending == LastOfEpoch(sys.shared.sends, sys.shared.epoch))
  {
    var m := WithdrawMachine(config);
    var sys := Serial.After(m, INITIAL_STATE, actions);
    WithdrawMachineLawful(config);
    Serial.EveryInterleavingIsSequential(m, INITIAL_STATE, actions);
    SequentialIsRun(config, sys.entered);
    RunKeepsInv(config, Calls(sys.entered));
    forall i | 0 <= i < |sys.left|
      ensures && sys.left[i].0 == sys.entered[i].0
              && sys.left[i].1
                   == Step(config, Run(config, INITIAL_STATE, Calls(sys.entered[..i])), sys.entered[i].1).outcome
    {
      SequentialIsRun(config, sys.entered[..i]);
      assert sys.left[i]
          == (sys.entered[i].0, m.big(Serial.Sequential(m, INITIAL_STATE, sys.entered[..i]), sys.entered[i].1).1);
    }
  }

  /** And every run is possible: whatever calls, in whatever order and from whichever goroutines,
      some schedule makes exactly those calls and comes to exactly that state. */
  lemma EveryRunIsPossible(config: ServiceConfig, entries: seq<(nat, Call)>) returns (actions: seq<Serial.Action<Call>>)
    ensures var sys := Serial.After(WithdrawMachine(config), INITIAL_STATE, actions);
            && sys.lock.None? && sys.invoked == sys.entered == entries && |sys.left| == |entries|
            && sys.shared == Run(config, INITIAL_STATE, Calls(entries))
  {
    WithdrawMachineLawful(config);
    actions := Serial.EverySequentialRunIsASchedule(WithdrawMachine(config), Rank, INITIAL_STATE, entries);
    SequentialIsRun(config, entries);
  }
}
