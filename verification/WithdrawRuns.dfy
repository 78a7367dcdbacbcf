/** What every run of the withdrawal service keeps, over any sequence of calls and any
    answers: one nonce and one fee ladder per epoch, spacing, justified sends, honest records. */
module WithdrawRuns {
  import opened Wrappers
  import opened Ints
  import opened Gas
  import opened GasLadder
  import opened Exit
  import opened Withdraw

  /** Within an epoch the next accepted send reuses the nonce, pays one more bump, and
      comes a full replacement timeout later. */
  ghost predicate Linked(config: ServiceConfig, s: Send, t: Send) {
    && s.epoch <= t.epoch
    && (s.epoch == t.epoch ==>
          && t.signed.tx.nonce == s.signed.tx.nonce
          && BumpChecked(config.gasPolicy, s.attempt.feeCaps) == Success(t.attempt.feeCaps)
          && (config.replacementTimeout > 0 ==> t.at - s.at >= config.replacementTimeout))
  }

  /** The attempt of a send describes the transaction that was sent. */
  ghost predicate Faithful(config: ServiceConfig, s: Send) {
    && ValidFees(s.attempt.feeCaps) && WithinCaps(config.gasPolicy, s.attempt.feeCaps)
    && s.signed.tx.maxFee == s.attempt.feeCaps.maxFee && s.signed.tx.tip == s.attempt.feeCaps.maxTip
    && s.signed.tx.nonce == s.attempt.nonce && s.signed.tx.gas == s.attempt.gasUnits
    && s.signed.hash == s.attempt.txHash && s.at == s.attempt.createdAt
    && s.attempt.status == Submitted && s.attempt.simulationSuccess && !s.attempt.failed
  }

  /** The pending withdrawal is the last accepted send, if that belongs to this epoch. */
  ghost function LastOfEpoch(sends: seq<Send>, epoch: nat): Option<PendingWithdrawal> {
    if sends != [] && sends[|sends| - 1].epoch == epoch
    then var s := sends[|sends| - 1]; Some(PendingWithdrawal(s.signed.tx.nonce, s.attempt.feeCaps, s.at, s.signed.hash))
    else None
  }

  ghost function SubmittedAttempts(attempts: seq<Attempt>): seq<Attempt> {
    if attempts == [] then []
    else
      var before, last := SubmittedAttempts(attempts[..|attempts| - 1]), attempts[|attempts| - 1];
      if last.status == Submitted then before + [last] else before
  }

  ghost function RecordedSends(sends: seq<Send>): seq<Attempt> {
    if sends == [] then []
    else
      var before, last := RecordedSends(sends[..|sends| - 1]), sends[|sends| - 1];
      if last.recorded then before + [last.attempt] else before
  }

  ghost predicate Inv(config: ServiceConfig, state: State) {
    && (forall i :: 0 <= i < |state.sends| ==> Faithful(config, state.sends[i]) && state.sends[i].epoch <= state.epoch)
    && (forall i :: 0 < i < |state.sends| ==> Linked(config, state.sends[i - 1], state.sends[i]))
    && state.pending == LastOfEpoch(state.sends, state.epoch)
    && SubmittedAttempts(state.attempts) == RecordedSends(state.sends)
  }

  /** The step left the sends alone, and recorded at most one attempt that is no submission. */
  ghost predicate Quiet(state: State, next: State) {
    && next.sends == state.sends
    && (next.attempts == state.attempts
        || (exists x: Attempt :: x.status != Submitted && next.attempts == state.attempts + [x]))
    && ((next.pending == state.pending && next.epoch == state.epoch)
        || (next.pending == None && next.epoch == state.epoch + 1))
  }

  /** The step sent one transaction: fresh fees when nothing was pending, a due bump of the
      pending ones otherwise. */
  ghost predicate Sent(config: ServiceConfig, state: State, next: State, s: Send) {
    && next.sends == state.sends + [s] && next.epoch == state.epoch == s.epoch
    && Faithful(config, s)
    && next.pending == LastOfEpoch([s], s.epoch)
    && next.attempts == (if s.recorded then state.attempts + [s.attempt] else state.attempts)
    && (state.pending.Some? ==>
          && s.signed.tx.nonce == state.pending.value.nonce
          && BumpChecked(config.gasPolicy, state.pending.value.feeCaps) == Success(s.attempt.feeCaps)
          && (config.replacementTimeout > 0 ==> s.at - state.pending.value.submittedAt >= config.replacementTimeout))
  }

  lemma StepIsQuietOrSends(config: ServiceConfig, state: State, call: Call)
    ensures var next := Step(config, state, call).state;
            || Quiet(state, next)
            || (|next.sends| == |state.sends| + 1 && Sent(config, state, next, next.sends[|state.sends|]))
  {
    var next := Step(config, state, call).state;
    if |next.attempts| > |state.attempts| {
      assert next.attempts == state.attempts + [next.attempts[|state.attempts|]];
    }
  }

  lemma SubmittedAttemptsAppend(attempts: seq<Attempt>, x: Attempt)
    ensures SubmittedAttempts(attempts + [x])
            == SubmittedAttempts(attempts) + (if x.status == Submitted then [x] else [])
  {
    assert (attempts + [x])[..|attempts|] == attempts;
  }

  lemma StepKeepsInv(config: ServiceConfig, state: State, call: Call)
    requires Inv(config, state)
    ensures Inv(config, Step(config, state, call).state)
  {
    var next := Step(config, state, call).state;
    StepIsQuietOrSends(config, state, call);
    if Quiet(state, next) {
      if next.attempts != state.attempts {
        var x: Attempt :| x.status != Submitted && next.attempts == state.attempts + [x];
        SubmittedAttemptsAppend(state.attempts, x);
      }
    } else {
      SendKeepsInv(config, state, next, next.sends[|state.sends|]);
    }
  }

  lemma SendKeepsInv(config: ServiceConfig, state: State, next: State, s: Send)
    requires Inv(config, state) && Sent(config, state, next, s)
    ensures Inv(config, next)
  {
    assert next.sends[..|next.sends| - 1] == state.sends;
    SubmittedAttemptsAppend(state.attempts, s.attempt);
    forall i | 0 < i < |next.sends| ensures Linked(config, next.sends[i - 1], next.sends[i]) {
      if i < |state.sends| {
        assert next.sends[i - 1] == state.sends[i - 1] && next.sends[i] == state.sends[i];
      }
    }
  }

  lemma {:induction false} RunKeepsInv(config: ServiceConfig, calls: seq<Call>)
    ensures Inv(config, Run(config, INITIAL_STATE, calls))
  {
    if calls != [] {
      RunKeepsInv(config, calls[..|calls| - 1]);
      StepKeepsInv(config, Run(config, INITIAL_STATE, calls[..|calls| - 1]), calls[|calls| - 1]);
    }
  }

  /** In every reachable state pending is the last accepted send of the current epoch,
      even when the repository refused the attempt that followed the send. */
  lemma PendingIsLastAcceptedSend(config: ServiceConfig, calls: seq<Call>)
    ensures var st := Run(config, INITIAL_STATE, calls); st.pending == LastOfEpoch(st.sends, st.epoch)
  {
    RunKeepsInv(config, calls);
  }

  /** The recorded submissions are exactly the accepted sends whose insert succeeded, in order. */
  lemma RecordsMatchSends(config: ServiceConfig, calls: seq<Call>)
    ensures var st := Run(config, INITIAL_STATE, calls); SubmittedAttempts(st.attempts) == RecordedSends(st.sends)
  {
    RunKeepsInv(config, calls);
  }

  lemma {:induction false} EpochLadder(config: ServiceConfig, state: State, i: nat, j: nat)
    requires Inv(config, state) && i <= j < |state.sends|
    ensures state.sends[i].epoch <= state.sends[j].epoch
    ensures state.sends[i].epoch == state.sends[j].epoch ==>
            var s, t := state.sends[i], state.sends[j];
            && s.signed.tx.nonce == t.signed.tx.nonce
            && Ladder(config.gasPolicy, s.attempt.feeCaps, j - i) == Success(t.attempt.feeCaps)
            && (config.replacementTimeout > 0 ==> t.at - s.at >= (j - i) * config.replacementTimeout)
    decreases j
  {
    if i < j {
      EpochLadder(config, state, i, j - 1);
      assert Linked(config, state.sends[j - 1], state.sends[j]);
      assert (j - i) * config.replacementTimeout == (j - 1 - i) * config.replacementTimeout + config.replacementTimeout;
    }
  }

  /** All sends of one epoch carry one nonce; the j-th pays the first one's fees bumped
      j - i times freely and capped once; and they span at least that many timeouts. */
  lemma OneNonceOneLadderPerEpoch(config: ServiceConfig, calls: seq<Call>, i: nat, j: nat)
    requires i <= j < |Run(config, INITIAL_STATE, calls).sends|
    requires Run(config, INITIAL_STATE, calls).sends[i].epoch == Run(config, INITIAL_STATE, calls).sends[j].epoch
    ensures var s, t := Run(config, INITIAL_STATE, calls).sends[i], Run(config, INITIAL_STATE, calls).sends[j];
            && s.signed.tx.nonce == t.signed.tx.nonce
            && (config.replacementTimeout > 0 ==> t.at - s.at >= (j - i) * config.replacementTimeout)
            && ValidFees(s.attempt.feeCaps)
            && (SoundBump(config.gasPolicy.bumpBPS) ==>
                  && t.signed.tx.maxFee
                       == Some(CapBig(UncappedBump(s.attempt.feeCaps.maxFee.value, config.gasPolicy.bumpBPS, j - i),
                                                   config.gasPolicy.maxFeeCap))
                  && t.signed.tx.tip
                       == Some(CapBig(UncappedBump(s.attempt.feeCaps.maxTip.value, config.gasPolicy.bumpBPS, j - i),
                                                config.gasPolicy.maxTipCap)))
  {
    RunKeepsInv(config, calls);
    var st := Run(config, INITIAL_STATE, calls);
    EpochLadder(config, st, i, j);
    if SoundBump(config.gasPolicy.bumpBPS) {
      LadderIsCappedOnce(config.gasPolicy, st.sends[i].attempt.feeCaps, j - i);
    }
  }

  /** With a fee cap that is not below the tip cap, no replacement of any run is ever turned
      down by the fee rules. */
  lemma ReplacementFeesNeverRejected(config: ServiceConfig, calls: seq<Call>, call: Call)
    requires ValidateCaps(config.gasPolicy) == None && SoundBump(config.gasPolicy.bumpBPS)
    requires config.gasPolicy.maxFeeCap.Some? ==>
               config.gasPolicy.maxTipCap.Some? && config.gasPolicy.maxTipCap.value <= config.gasPolicy.maxFeeCap.value
    requires Run(config, INITIAL_STATE, calls).pending.Some?
    ensures var error := Step(config, Run(config, INITIAL_STATE, calls), call).outcome.error;
            error.Some? ==> !error.value.FeesRejected?
  {
    RunKeepsInv(config, calls);
    var st := Run(config, INITIAL_STATE, calls);
    BumpFailsExactlyWhen(config.gasPolicy, st.pending.value.feeCaps);
  }

  /** A replacement that is due and gets as far as pricing is turned down exactly when the
      fee cap lies below the bumped and capped tip. */
  lemma ReplacementFeesRejectedExactlyWhen(config: ServiceConfig, calls: seq<Call>, signer: Address, a: Answers)
    requires ValidateCaps(config.gasPolicy) == None && SoundBump(config.gasPolicy.bumpBPS)
    requires Run(config, INITIAL_STATE, calls).pending.Some?
    requires !MustWait(config, Run(config, INITIAL_STATE, calls).pending, a.now)
    ensures var p := Run(config, INITIAL_STATE, calls).pending;
            && ValidFees(p.value.feeCaps)
            && (NonceAndFeeCaps(config, p, signer, a).Failure? <==>
                !WithinCap(CapBig(BumpBPS(p.value.feeCaps.maxTip.value, config.gasPolicy.bumpBPS),
                                  config.gasPolicy.maxTipCap),
                           config.gasPolicy.maxFeeCap))
  {
    RunKeepsInv(config, calls);
    BumpFailsExactlyWhen(config.gasPolicy, Run(config, INITIAL_STATE, calls).pending.value.feeCaps);
  }

  // ----- why a transaction was sent -----

  /** The gas limit covers the estimate and is at most twice it, with nothing lost to 64 bits. */
  lemma BufferedGasRange(gas: uint64, bufferBPS: int64)
    requires gas < TWO_TO_THE_63 && bufferBPS <= 10_000
    ensures gas <= BufferedGas(gas, bufferBPS) <= 2 * gas
    ensures bufferBPS > 0 ==> BufferedGas(gas, bufferBPS) == gas + gas * bufferBPS / 10_000
  {
    if bufferBPS > 0 {
      var factor: int := 10_000 + bufferBPS;
      assert WrapInt64(10_000 + bufferBPS) == factor;
      MulMonotone(10_000, factor, gas);
      MulMonotone(factor, 20_000, gas);
      assert gas * factor == gas * 10_000 + gas * bufferBPS;
    }
  }

  /** Beyond that range the scaled estimate survives exactly when it fits 64 bits. */
  lemma BufferedGasExactlyWhen(gas: uint64, bufferBPS: int64)
    requires 0 < bufferBPS && SoundBump(bufferBPS)
    ensures BufferedGas(gas, bufferBPS) == gas * (10_000 + bufferBPS) / 10_000
       <==> gas * (10_000 + bufferBPS) / 10_000 < TWO_TO_THE_64
  {
    assert WrapInt64(10_000 + bufferBPS) == 10_000 + bufferBPS;
    var factor: int := 10_000 + bufferBPS;
    assert gas * factor / 10_000 >= 0 by {
      MulMonotone(0, gas, factor);
    }
  }

  /** Everything one call had to see before its transaction could be accepted. */
  ghost predicate Justified(config: ServiceConfig, call: Call, s: Send) {
    var a := call.answers;
    && a.position.Success? && a.position.value.shareBalance.Some? && a.position.value.shareBalance.value > 0
    && a.signerAddress == Success(a.position.value.owner)
    && var request := RequestFor(a.position.value);
       var simulation := a.simulate(request).simulation;
       && !a.simulate(request).failed && simulation.success
       && a.build(request).Success?
       && var candidate := a.build(request).value;
          && s.signed.tx.to == candidate.to && s.signed.tx.data == candidate.data
          && s.signed.tx.value == (if candidate.value.None? then Some(0) else candidate.value)
          && s.signed.tx.gas == BufferedGas(simulation.gasUnits, config.gasLimitBufferBPS)
          && s.at == a.now && s.attempt.trigger == call.trigger
          && config.chainID == Some(s.signed.tx.chainID)
          && a.sign(s.signed.tx) == Success(s.signed.hash) && a.accept(s.signed)
  }

  lemma StepSendsAtMostOnce(config: ServiceConfig, state: State, call: Call)
    ensures var next := Step(config, state, call).state;
            || next.sends == state.sends
            || (exists s :: next.sends == state.sends + [s] && Justified(config, call, s))
  {
    var next := Step(config, state, call).state;
    if next.sends != state.sends {
      var s := next.sends[|state.sends|];
      assert next.sends == state.sends + [s] && Justified(config, call, s);
    }
  }

  /** The configuration is complete and the position was read. */
  predicate Reads(config: ServiceConfig, a: Answers) {
    ConfigError(config).None? && a.position.Success?
  }

  /** Everything that has to go well for a call to send. */
  predicate Goes(config: ServiceConfig, state: State, call: Call) {
    var a := call.answers;
    && Reads(config, a)
    && a.position.value.shareBalance.Some? && a.position.value.shareBalance.value > 0
    && a.signerAddress == Success(a.position.value.owner)
    && !MustWait(config, state.pending, a.now)
    && var request := RequestFor(a.position.value);
       var answer := a.simulate(request);
       && !answer.failed && answer.simulation.success
       && a.build(request).Success?
       && var priced := NonceAndFeeCaps(config, state.pending, a.signerAddress.value, a);
          && priced.Success?
          && var tx := BuildDynamicFeeTx(a.build(request).value, config.chainID.value, priced.value.0,
                                         BufferedGas(answer.simulation.gasUnits, config.gasLimitBufferBPS),
                                         priced.value.1);
             a.sign(tx).Success? && a.accept(SignedTx(tx, a.sign(tx).value))
  }

  /** An epoch ends exactly when no shares are read and that has been stored; and while it
      lasts pending changes only with a send. */
  lemma EpochEndsExactlyWhen(config: ServiceConfig, state: State, call: Call)
    ensures var next := Step(config, state, call).state; var a := call.answers;
            && (next.epoch != state.epoch <==>
                && Reads(config, a) && NoShares(a.position.value)
                && a.insert(AttemptFor(call.trigger, NOOP_RESULT, NO_SIMULATION, false, a.now)))
            && (next.epoch != state.epoch ==> next.pending.None? && next.epoch == state.epoch + 1)
            && (next.epoch == state.epoch && next.sends == state.sends ==> next.pending == state.pending)
  {
  }

  // One call at a time: what the branches of the step come to.

  lemma SendsExactlyWhen(config: ServiceConfig, state: State, call: Call)
    ensures |Step(config, state, call).state.sends| == |state.sends| + (if Goes(config, state, call) then 1 else 0)
  {
  }

  lemma SubmittedIsWhatIsPending(config: ServiceConfig, state: State, call: Call)
    ensures var (next, result) := (Step(config, state, call).state, Step(config, state, call).outcome.result);
            result.status == Submitted ==>
              next.pending.Some? && var p := next.pending.value;
              p.txHash == result.txHash && p.nonce == result.nonce && p.feeCaps == result.feeCaps
  {
  }

  // All calls of a run.

  /** Every send of every run was justified by one of the run's own calls. */
  lemma {:induction false} EverySendJustified(config: ServiceConfig, calls: seq<Call>, i: nat)
    requires i < |Run(config, INITIAL_STATE, calls).sends|
    ensures exists k :: 0 <= k < |calls| && Justified(config, calls[k], Run(config, INITIAL_STATE, calls).sends[i])
  {
    var n := |calls| - 1;
    var before := Run(config, INITIAL_STATE, calls[..n]);
    StepSendsAtMostOnce(config, before, calls[n]);
    if i < |before.sends| {
      EverySendJustified(config, calls[..n], i);
      var k :| 0 <= k < n && Justified(config, calls[..n][k], before.sends[i]);
      assert Justified(config, calls[k], Run(config, INITIAL_STATE, calls).sends[i]);
    } else {
      assert Justified(config, calls[n], Run(config, INITIAL_STATE, calls).sends[i]);
    }
  }

  /** The calls of a run that go, by their position. */
  function Going(config: ServiceConfig, calls: seq<Call>): seq<nat> {
    if calls == [] then []
    else
      var n := |calls| - 1;
      Going(config, calls[..n]) + if Goes(config, Run(config, INITIAL_STATE, calls[..n]), calls[n]) then [n] else []
  }

  /** The i-th send of a run is made by the i-th of its calls that go, an attempt that cannot be
      stored does not take it back, and no other call sends. */
  lemma {:induction false} SendsAreTheCallsThatGo(config: ServiceConfig, calls: seq<Call>)
    ensures var sends, going := Run(config, INITIAL_STATE, calls).sends, Going(config, calls);
            && |sends| == |going|
            && (forall i :: 0 <= i < |sends| ==> going[i] < |calls| && Justified(config, calls[going[i]], sends[i]))
            && (forall i, j :: 0 <= i < j < |going| ==> going[i] < going[j])
  {
    if calls != [] {
      var n := |calls| - 1;
      var before := Run(config, INITIAL_STATE, calls[..n]);
      SendsAreTheCallsThatGo(config, calls[..n]);
      SendsExactlyWhen(config, before, calls[n]);
      StepSendsAtMostOnce(config, before, calls[n]);
      var sends, going := Run(config, INITIAL_STATE, calls).sends, Going(config, calls);
      forall i | 0 <= i < |sends| ensures going[i] < |calls| && Justified(config, calls[going[i]], sends[i]) {
        if i < |before.sends| {
          assert calls[..n][going[i]] == calls[going[i]] && sends[i] == before.sends[i];
        }
      }
    }
  }

  /** A call that reports a submission reports the last accepted send of the run, whether it has
      just made it or waits for it. */
  lemma ReportedSubmissionIsTheLastSend(config: ServiceConfig, calls: seq<Call>, call: Call)
    ensures var done := Step(config, Run(config, INITIAL_STATE, calls), call);
            done.outcome.result.status == Submitted ==>
              && done.state.sends != []
              && var s, result := done.state.sends[|done.state.sends| - 1], done.outcome.result;
                 && s.epoch == done.state.epoch
                 && result.txHash == s.signed.hash && result.nonce == s.signed.tx.nonce
                 && result.feeCaps.maxFee == s.signed.tx.maxFee && result.feeCaps.maxTip == s.signed.tx.tip
  {
    var before := Run(config, INITIAL_STATE, calls);
    RunKeepsInv(config, calls);
    StepKeepsInv(config, before, call);
    SubmittedIsWhatIsPending(config, before, call);
  }

  /** The branch that would resend with the old fees is never taken: whatever a run sends while
      something is pending has waited for the timeout and pays a checked bump of the fees of
      the send before it. */
  lemma ResendIsAlwaysBumped(config: ServiceConfig, calls: seq<Call>, call: Call)
    requires Run(config, INITIAL_STATE, calls).pending.Some?
    requires |Step(config, Run(config, INITIAL_STATE, calls), call).state.sends|
             > |Run(config, INITIAL_STATE, calls).sends|
    ensures var before := Run(config, INITIAL_STATE, calls);
            && before.sends != []
            && var last, s := before.sends[|before.sends| - 1], Step(config, before, call).state.sends[|before.sends|];
               && last.epoch == s.epoch && s.signed.tx.nonce == last.signed.tx.nonce
               && (config.replacementTimeout > 0 ==> s.at - last.at >= config.replacementTimeout)
               && BumpChecked(config.gasPolicy, last.attempt.feeCaps) == Success(s.attempt.feeCaps)
               && s.signed.tx.maxFee == s.attempt.feeCaps.maxFee && s.signed.tx.tip == s.attempt.feeCaps.maxTip
  {
    RunKeepsInv(config, calls);
    StepIsQuietOrSends(config, Run(config, INITIAL_STATE, calls), call);
  }

  /** The answers that the Morpho adapter gives when the chain answers as it does. */
  ghost predicate AnsweredBy(a: Answers, adapter: MorphoAdapter, atPosition: Chain, atSimulation: Chain,
                             atBuild: Chain)
  {
    && (a.position.Success? ==> adapter.Position(atPosition) == Success(a.position.value))
    && (forall r :: !a.simulate(r).failed ==>
          adapter.SimulateFullExit(atSimulation, r) == Success(a.simulate(r).simulation))
    && (forall r :: a.build(r).Success? ==> adapter.BuildFullExit(atBuild, r) == Success(a.build(r).value))
  }

  /** The chain as a call sees it: when it reads the position, when it simulates, and when it
      builds the transaction. Between them the chain may change; the ABI encoder may not. */
  datatype Sightings = Sightings(position: Chain, simulation: Chain, build: Chain)

  ghost predicate AnsweredFrom(a: Answers, adapter: MorphoAdapter, seen: Sightings) {
    AnsweredBy(a, adapter, seen.position, seen.simulation, seen.build)
      && seen.build.packRedeem == seen.simulation.packRedeem
  }

  /** What was sent is the redemption of all the shares just read, and the very message whose
      gas the node has estimated, with a gas limit that covers the estimate. */
  ghost predicate Estimated(config: ServiceConfig, adapter: MorphoAdapter, seen: Sightings, s: Send) {
    exists gas: uint64, shares: int ::
      && seen.position.balanceOf(adapter.owner) == Success(shares) && shares > 0
      && s.signed.tx.to == adapter.vault && s.signed.tx.value == Some(0)
      && seen.simulation.packRedeem(shares, adapter.receiver, adapter.owner) == Success(s.signed.tx.data)
      && seen.simulation.estimateGas(CallMsg(adapter.owner, s.signed.tx.to, s.signed.tx.value, s.signed.tx.data))
           == Success(gas)
      && s.signed.tx.gas == BufferedGas(gas, config.gasLimitBufferBPS)
      && (gas < TWO_TO_THE_63 && config.gasLimitBufferBPS <= 10_000 ==> gas <= s.signed.tx.gas <= 2 * gas)
  }

  lemma SentIsWhatWasEstimated(config: ServiceConfig, call: Call, s: Send, adapter: MorphoAdapter, seen: Sightings)
    requires Justified(config, call, s) && AnsweredFrom(call.answers, adapter, seen)
    ensures Estimated(config, adapter, seen, s)
  {
    var request := RequestFor(call.answers.position.value);
    var gas := call.answers.simulate(request).simulation.gasUnits;
    SimulationEstimatesTheBuiltTransaction(adapter, seen.simulation, request, gas);
    if gas < TWO_TO_THE_63 && config.gasLimitBufferBPS <= 10_000 {
      BufferedGasRange(gas, config.gasLimitBufferBPS);
    }
    assert seen.position.balanceOf(adapter.owner) == Success(request.shares.value);
  }

  /** With the Morpho adapter, this holds of every send of every run, for the call that made it. */
  lemma EverySendIsWhatWasEstimated(config: ServiceConfig, calls: seq<Call>, adapter: MorphoAdapter,
                                    seen: seq<Sightings>, i: nat)
    requires |seen| == |calls| && forall k :: 0 <= k < |calls| ==> AnsweredFrom(calls[k].answers, adapter, seen[k])
    requires i < |Run(config, INITIAL_STATE, calls).sends|
    ensures i < |Going(config, calls)| && Going(config, calls)[i] < |calls|
    ensures Estimated(config, adapter, seen[Going(config, calls)[i]], Run(config, INITIAL_STATE, calls).sends[i])
  {
    SendsAreTheCallsThatGo(config, calls);
    var k := Going(config, calls)[i];
    SentIsWhatWasEstimated(config, calls[k], Run(config, INITIAL_STATE, calls).sends[i], adapter, seen[k]);
  }
}
