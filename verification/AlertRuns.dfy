/** What one tick of the monitor does to the world: which alerts and withdrawals, how many
    transactions, and for which statuses (internal/app/alerts.go over
    internal/withdraw/service.go and internal/monitor/service.go). */
module AlertRuns {
  import opened Wrappers
  import opened Core
  import opened Exit
  import opened Withdraw
  import opened WithdrawRuns
  import opened Alerts
  import Monitor
  import opened MonitorRuns
  import SharePrice
  import Liquidity
  import VaultState

  // ----- order -----

  /** Alert, withdrawal, alert, withdrawal, ... */
  function Intended(us: seq<UrgentFinding>): seq<Effect> {
    if us == [] then []
    else [Alert(us[0].finding.message), Effect.Exit(TriggerFor(us[0]))] + Intended(us[1..])
  }

  lemma TwoMore(trace: seq<Effect>, pair: seq<Effect>, rest: seq<Effect>, k: nat)
    requires |pair| == 2 && k <= |rest|
    ensures (trace + pair) + rest[..k] == trace + (pair + rest)[..k + 2]
  {
  }

  lemma ActEffects(config: ServiceConfig, s: AlertState, u: UrgentFinding, moment: Moment)
    ensures var (next, error) := ActOn(config, s, u, moment);
            var alert, exit := Alert(u.finding.message), Effect.Exit(TriggerFor(u));
            || (error.None? && next.trace == s.trace + [alert, exit])
            || (error.Some? && error.value.effect == alert && next.trace == s.trace)
            || (error.Some? && error.value.effect == exit && next.trace == s.trace + [alert])
  {
  }

  /** The effects of a tick are a prefix of the intended ones: all of them exactly when there
      is no error, and otherwise up to the very effect that the error is about. */
  lemma {:induction false} EffectsAreAPrefix(config: ServiceConfig, s: AlertState, us: seq<UrgentFinding>,
                                             moments: nat -> Moment, i: nat)
    returns (done: nat)
    ensures done <= |Intended(us)|
    ensures var (after, error) := HandleFrom(config, s, us, moments, i);
            && after.trace == s.trace + Intended(us)[..done]
            && (error.None? <==> done == |Intended(us)|)
            && (error.Some? ==> error.value.effect == Intended(us)[done])
    decreases |us|
  {
    if us == [] {
      return 0;
    }
    var (next, failed) := ActOn(config, s, us[0], moments(i));
    ActEffects(config, s, us[0], moments(i));
    if failed.Some? {
      return |next.trace| - |s.trace|;
    }
    var later := EffectsAreAPrefix(config, next, us[1..], moments, i + 1);
    TwoMore(s.trace, Intended(us)[..2], Intended(us[1..]), later);
    done := later + 2;
  }

  // ----- how many transactions -----

  /** While a send is outstanding and not due for replacement, a call that reads shares sends
      nothing and leaves it outstanding. */
  lemma OutstandingSendHolds(config: ServiceConfig, state: State, call: Call)
    requires MustWait(config, state.pending, call.answers.now)
    requires call.answers.position.Success? ==> !NoShares(call.answers.position.value)
    ensures var next := Step(config, state, call).state; next.sends == state.sends && next.pending == state.pending
  {
  }

  /** The tick reads no empty position. */
  predicate ReadsShares(us: seq<UrgentFinding>, moments: nat -> Moment, i: nat) {
    forall k :: i <= k < i + |us| ==> moments(k).answers.position.Success? ==>
      !NoShares(moments(k).answers.position.value)
  }

  /** Every clock reading of the tick is less than the timeout after the given time. */
  predicate TicksBefore(config: ServiceConfig, since: int, us: seq<UrgentFinding>, moments: nat -> Moment, i: nat) {
    forall k :: i <= k < i + |us| ==> Elapsed(moments(k).answers.now, since) < config.replacementTimeout
  }

  lemma {:induction false} NoSendWhileOutstanding(config: ServiceConfig, s: AlertState, us: seq<UrgentFinding>,
                                                  moments: nat -> Moment, i: nat)
    requires config.replacementTimeout > 0 && s.withdrawal.pending.Some?
    requires ReadsShares(us, moments, i) && TicksBefore(config, s.withdrawal.pending.value.submittedAt, us, moments, i)
    ensures HandleFrom(config, s, us, moments, i).0.withdrawal.sends == s.withdrawal.sends
    decreases |us|
  {
    if us != [] && moments(i).alertOK {
      OutstandingSendHolds(config, s.withdrawal, Call(TriggerFor(us[0]), moments(i).answers));
      var (next, error) := ActOn(config, s, us[0], moments(i));
      if error.None? {
        NoSendWhileOutstanding(config, next, us[1..], moments, i + 1);
      }
    }
  }

  lemma {:induction false} SendsOnlyGrow(config: ServiceConfig, s: AlertState, us: seq<UrgentFinding>,
                                         moments: nat -> Moment, i: nat)
    ensures s.withdrawal.sends <= HandleFrom(config, s, us, moments, i).0.withdrawal.sends
    decreases |us|
  {
    if us != [] {
      var (next, error) := ActOn(config, s, us[0], moments(i));
      ActSendsAtMostOnce(config, s, us[0], moments(i));
      if error.None? {
        SendsOnlyGrow(config, next, us[1..], moments, i + 1);
      }
    }
  }

  /** One more send than before, and it is what is pending. */
  predicate SentOne(before: seq<Send>, next: State) {
    && |next.sends| == |before| + 1 && before <= next.sends
    && next.pending.Some? && next.pending.value.submittedAt == next.sends[|before|].at
  }

  lemma ActSendsAtMostOnce(config: ServiceConfig, s: AlertState, u: UrgentFinding, moment: Moment)
    ensures var next := ActOn(config, s, u, moment).0.withdrawal;
            next.sends == s.withdrawal.sends || SentOne(s.withdrawal.sends, next)
  {
    StepIsQuietOrSends(config, s.withdrawal, Call(TriggerFor(u), moment.answers));
  }

  /** No clock reading comes a timeout after one of the sends from the given number on. */
  predicate ReadEarly(config: ServiceConfig, sends: seq<Send>, from: nat, us: seq<UrgentFinding>,
                      moments: nat -> Moment, i: nat)
  {
    forall n :: from <= n < |sends| ==> TicksBefore(config, sends[n].at, us, moments, i)
  }

  lemma ReadEarlyLater(config: ServiceConfig, sends: seq<Send>, from: nat, us: seq<UrgentFinding>,
                       moments: nat -> Moment, i: nat)
    requires us != [] && ReadEarly(config, sends, from, us, moments, i)
    ensures ReadEarly(config, sends, from, us[1..], moments, i + 1)
  {
    forall n | from <= n < |sends| ensures TicksBefore(config, sends[n].at, us[1..], moments, i + 1) {
      assert TicksBefore(config, sends[n].at, us, moments, i);
    }
  }

  /** However many urgent findings a tick brings, it sends at most one transaction, if it
      reads no empty position and no clock reading comes a timeout after a send of its own. */
  lemma {:induction false} AtMostOneSendPerTick(config: ServiceConfig, s: AlertState, us: seq<UrgentFinding>,
                                                moments: nat -> Moment, i: nat)
    requires config.replacementTimeout > 0 && ReadsShares(us, moments, i)
    requires ReadEarly(config, HandleFrom(config, s, us, moments, i).0.withdrawal.sends, |s.withdrawal.sends|,
                       us, moments, i)
    ensures |HandleFrom(config, s, us, moments, i).0.withdrawal.sends| <= |s.withdrawal.sends| + 1
    decreases 2 * |us|
  {
    if us != [] {
      var (next, error) := ActOn(config, s, us[0], moments(i));
      ActSendsAtMostOnce(config, s, us[0], moments(i));
      if error.None? {
        var sends := HandleFrom(config, s, us, moments, i).0.withdrawal.sends;
        assert sends == HandleFrom(config, next, us[1..], moments, i + 1).0.withdrawal.sends;
        ReadEarlyLater(config, sends, |s.withdrawal.sends|, us, moments, i);
        AtMostOneSendAfter(config, s.withdrawal.sends, next, us[1..], moments, i + 1);
      }
    }
  }

  /** The rest of the tick, once the first finding has been acted on: if that has sent, nothing
      else will. */
  lemma {:induction false} AtMostOneSendAfter(config: ServiceConfig, before: seq<Send>, next: AlertState,
                                              us: seq<UrgentFinding>, moments: nat -> Moment, i: nat)
    requires config.replacementTimeout > 0 && ReadsShares(us, moments, i)
    requires next.withdrawal.sends == before || SentOne(before, next.withdrawal)
    requires ReadEarly(config, HandleFrom(config, next, us, moments, i).0.withdrawal.sends, |before|, us, moments, i)
    ensures |HandleFrom(config, next, us, moments, i).0.withdrawal.sends| <= |before| + 1
    decreases 2 * |us| + 1
  {
    if next.withdrawal.sends == before {
      AtMostOneSendPerTick(config, next, us, moments, i);
    } else {
      SendsOnlyGrow(config, next, us, moments, i);
      var sends := HandleFrom(config, next, us, moments, i).0.withdrawal.sends;
      assert TicksBefore(config, sends[|before|].at, us, moments, i);
      NoSendWhileOutstanding(config, next, us, moments, i);
    }
  }

  // ----- for which statuses -----

  lemma {:induction false} UrgentsOfFindings(moduleID: string, findings: seq<Finding>)
    ensures forall u :: u in UrgentsOf(moduleID, findings) <==>
              u.moduleID == moduleID && u.finding in findings && u.finding.severity == Urgent
    decreases |findings|
  {
    if findings != [] {
      UrgentsOfFindings(moduleID, findings[1..]);
      assert findings == [findings[0]] + findings[1..];
    }
  }

  /** Exactly the urgent findings are acted on, each for the module that reported it. */
  lemma {:induction false} UrgentsOfResults(results: seq<MonitorResult>)
    ensures forall u :: u in Urgents(results) <==>
              exists r :: r in results && u.moduleID == r.moduleID && u.finding in r.findings
                && u.finding.severity == Urgent
    decreases |results|
  {
    if results != [] {
      UrgentsOfResults(results[1..]);
      UrgentsOfFindings(results[0].moduleID, results[0].findings);
      assert results == [results[0]] + results[1..];
    }
  }

  /** Among honest results the status URGENT appears exactly when there is something to act on. */
  lemma UrgentStatusMeansUrgentFinding(results: seq<MonitorResult>)
    requires forall r :: r in results ==> Honest(r)
    ensures (exists r :: r in results && r.status == URGENT) <==> Urgents(results) != []
  {
    UrgentsOfResults(results);
    if r :| r in results && r.status == URGENT {
      var i :| 0 <= i < |r.findings| && r.findings[i].severity == Urgent;
      assert UrgentFinding(r.moduleID, r.findings[i]) in Urgents(results);
    }
    if Urgents(results) != [] {
      var u := Urgents(results)[0];
      assert u in Urgents(results);
      var r :| r in results && u.moduleID == r.moduleID && u.finding in r.findings && u.finding.severity == Urgent;
      assert HasUrgentFinding(r);
    }
  }

  /** Handed these results, the handler neither causes an effect nor reports a failure. */
  predicate NothingHappens(config: ServiceConfig, s: AlertState, results: seq<MonitorResult>, moments: nat -> Moment) {
    var (after, error) := HandleFrom(config, s, Urgents(results), moments, 0);
    after.trace == s.trace && error.None?
  }

  /** That is so exactly when there is nothing urgent; otherwise it starts with an alert. */
  lemma HandlerActsExactlyWhenUrgent(config: ServiceConfig, s: AlertState, results: seq<MonitorResult>,
                                     moments: nat -> Moment)
    ensures NothingHappens(config, s, results, moments) <==> Urgents(results) == []
  {
    var done := EffectsAreAPrefix(config, s, Urgents(results), moments, 0);
  }

  /** The three modules of the bot with what the chain answers to them. */
  datatype RealModule =
    | SharePriceLoss(price: SharePrice.SharePriceModule, priceRead: Result<Option<int>, Unseen>)
    | WithdrawLiquidity(liquidity: Liquidity.LiquidityModule, idle: Result<Option<int>, Unseen>,
                        position: Result<PositionSnapshot, Unseen>, simulate: FullExitRequest -> SimulationAnswer)
    | VaultStateBaseline(json: VaultState.Encoder, vault: VaultState.VaultStateModule,
                         vaultRead: Result<VaultState.Snapshot, Unseen>)

  /** A module's turn in a tick; errorText is how its error reads, if it fails. */
  datatype RealTurn = RealTurn(asked: RealModule, now: int, errorText: string, storedAt: int, stored: bool)

  function IDOf(r: RealTurn): string {
    match r.asked
    case SharePriceLoss(_, _) => MODULE_SHARE_PRICE_LOSS
    case WithdrawLiquidity(_, _, _, _) => MODULE_WITHDRAW_LIQUIDITY
    case VaultStateBaseline(_, _, _) => MODULE_VAULT_STATE
  }

  predicate Configured(r: RealTurn) {
    match r.asked
    case SharePriceLoss(m, _) => SharePrice.ValidateConfig(m).None?
    case WithdrawLiquidity(m, _, _, _) => Liquidity.ValidateConfig(m).None?
    case VaultStateBaseline(_, m, _) => VaultState.ValidateConfig(m).None?
  }

  /** The module is configured and everything it reads is usable. */
  predicate Observes(r: RealTurn) {
    match r.asked
    case SharePriceLoss(m, reading) => SharePrice.Observable(m, reading)
    case WithdrawLiquidity(m, idle, position, simulate) =>
      Liquidity.Observable(m, idle, position, Liquidity.Outlook(m, position, simulate))
    case VaultStateBaseline(_, m, reading) => VaultState.Observable(m, reading)
  }

  /** The result is the module's own account of what it has read. */
  ghost predicate Describes(r: RealTurn, result: MonitorResult)
    requires Observes(r)
  {
    match r.asked
    case SharePriceLoss(m, reading) => SharePrice.Describes(m, reading.value.value, r.now, result)
    case WithdrawLiquidity(m, idle, position, simulate) =>
      Liquidity.Describes(m, idle.value.value, Liquidity.Outlook(m, position, simulate), r.now, result)
    case VaultStateBaseline(json, m, reading) => VaultState.Describes(json, m, reading.value, r.now, result)
  }

  /** What the module has read calls for a withdrawal: a price loss that reaches the urgent
      threshold, too little idle liquidity or an exit that cannot be simulated, or a changed
      vault state that is not configured to warn. */
  ghost predicate CallsForExit(r: RealTurn) {
    && Observes(r)
    && match r.asked
       case SharePriceLoss(m, reading) => SharePrice.LossReaches(m, reading.value.value, m.urgentBPS)
       case WithdrawLiquidity(m, idle, position, simulate) =>
         idle.value.value < m.idleUrgent.value || !Liquidity.Outlook(m, position, simulate).success
       case VaultStateBaseline(_, m, reading) =>
         !VaultState.Equivalent(m.baseline, reading.value) && m.changeSeverity != Warn
  }

  /** The turn is what the module itself says: its id, its verdict on its configuration, and
      its own result or its own error. */
  ghost predicate SaidBy(r: RealTurn, turn: Monitor.Turn<MonitorResult>) {
    && turn.mod.Module? && turn.mod.id == IDOf(r)
    && (turn.mod.valid <==> Configured(r))
    && (turn.mod.run.Success? <==> Observes(r))
    && (turn.mod.run.Success? ==> Describes(r, turn.mod.run.value))
    && (turn.mod.run.Failure? ==> turn.mod.run.error == r.errorText)
    && turn.failedAt == r.now && turn.storedAt == r.storedAt && turn.stored == r.stored
  }

  function TurnFor<E>(r: RealTurn, answer: Result<MonitorResult, E>): Monitor.Turn<MonitorResult> {
    Monitor.Turn(Monitor.Module(IDOf(r), Configured(r),
                                if answer.Success? then Success(answer.value) else Failure(r.errorText)),
                 r.now, r.storedAt, r.stored)
  }

  method Ask(r: RealTurn) returns (turn: Monitor.Turn<MonitorResult>)
    ensures SaidBy(r, turn)
  {
    match r.asked {
      case SharePriceLoss(m, reading) =>
        var answer := SharePrice.Monitor(m, reading, r.now);
        turn := TurnFor(r, answer);
      case WithdrawLiquidity(m, idle, position, simulate) =>
        var answer := Liquidity.Monitor(m, idle, position, simulate, r.now);
        turn := TurnFor(r, answer);
      case VaultStateBaseline(json, m, reading) =>
        var answer := VaultState.Monitor(json, m, reading, r.now);
        turn := TurnFor(r, answer);
    }
  }

  method AskAll(reals: seq<RealTurn>) returns (turns: seq<Monitor.Turn<MonitorResult>>)
    ensures |turns| == |reals| && forall j :: 0 <= j < |turns| ==> SaidBy(reals[j], turns[j])
  {
    turns := [];
    for i := 0 to |reals|
      invariant |turns| == i && forall j :: 0 <= j < i ==> SaidBy(reals[j], turns[j])
    {
      var turn := Ask(reals[i]);
      turns := turns + [turn];
    }
  }

  /** What the module has read is worth at least a warning. */
  ghost predicate CallsForAttention(r: RealTurn) {
    && Observes(r)
    && match r.asked
       case SharePriceLoss(m, reading) => SharePrice.LossReaches(m, reading.value.value, m.warnBPS)
       case WithdrawLiquidity(m, idle, position, simulate) =>
         idle.value.value < m.idleWarn.value || !Liquidity.Outlook(m, position, simulate).success
       case VaultStateBaseline(_, m, reading) => !VaultState.Equivalent(m.baseline, reading.value)
  }

  /** A failed module is kept as UNKNOWN, as of now, with one warning that quotes its error. */
  predicate OnlyWarns(r: RealTurn, result: MonitorResult) {
    && result.status == UNKNOWN && result.observedAt == r.now && result.metrics == []
    && result.findings == [Finding("stale_data", Warn, "module " + IDOf(r) + " failed: " + r.errorText,
                                   map["module_id" := Word(IDOf(r))])]
  }

  /** A result as it is kept: the module's own account of what it read, with the status that
      this calls for; or nothing but a warning if the module failed. */
  ghost predicate Judged(r: RealTurn, result: MonitorResult) {
    && result.moduleID == IDOf(r) && Honest(result)
    && (if Observes(r) then Describes(r, result) else OnlyWarns(r, result))
    && (result.status == URGENT <==> CallsForExit(r))
    && (result.status == WARN <==> CallsForAttention(r) && !CallsForExit(r))
    && (result.status == OK <==> Observes(r) && !CallsForAttention(r))
  }

  /** A loss that reaches the urgent threshold reaches the lower one too. */
  lemma ExitIsWorthAttention(r: RealTurn)
    ensures CallsForExit(r) ==> CallsForAttention(r)
  {
    if r.asked.SharePriceLoss? && CallsForExit(r) {
      var m, price := r.asked.price, r.asked.priceRead.value.value;
      LostLess(m.baseline.value, price, m.warnBPS, m.urgentBPS);
      if m.previous.Some? && m.previous.value > 0 {
        LostLess(m.previous.value, price, m.warnBPS, m.urgentBPS);
      }
    }
  }

  lemma LostLess(reference: int, price: int, less: int, more: int)
    requires reference > 0 && less <= more
    ensures SharePrice.Lost(reference, price, more) ==> SharePrice.Lost(reference, price, less)
  {
  }

  lemma ResultIsJudged(r: RealTurn, turn: Monitor.Turn<MonitorResult>)
    requires SaidBy(r, turn)
    ensures Monitor.Invalid(turn.mod) <==> !Configured(r)
    ensures Configured(r) ==> Judged(r, Monitor.ResultOf(turn))
  {
    if Configured(r) && turn.mod.run.Success? {
      assert Monitor.ResultOf(turn).findings == turn.mod.run.value.findings;
      ExitIsWorthAttention(r);
    }
  }

  function StatusesOf(results: seq<MonitorResult>): (statuses: seq<MonitorStatus>)
    ensures forall status :: status in statuses <==> exists r :: r in results && r.status == status
  {
    if results == [] then []
    else
      assert results == [results[0]] + results[1..];
      [results[0].status] + StatusesOf(results[1..])
  }

  /** The results of a pass over the real modules, one for each module before the first that
      is not configured. */
  ghost predicate Assessed(reals: seq<RealTurn>, results: seq<MonitorResult>) {
    && |results| <= |reals|
    && (forall j :: 0 <= j < |results| ==> Configured(reals[j]) && Judged(reals[j], results[j]))
    && (|results| < |reals| ==> !Configured(reals[|results|]))
  }

  lemma PassOverAll(turns: seq<Monitor.Turn<MonitorResult>>, latest: Monitor.Latest)
    ensures var results := Monitor.Pass(Monitor.Progress([], latest, [], {}), turns).results;
            && |results| <= |turns|
            && (forall j :: 0 <= j < |results| ==>
                  !Monitor.Invalid(turns[j].mod) && results[j] == Monitor.ResultOf(turns[j]))
            && (|results| < |turns| ==> Monitor.Invalid(turns[|results|].mod))
  {
    PassResultsExactly(Monitor.Progress([], latest, [], {}), turns);
    var results := Monitor.Pass(Monitor.Progress([], latest, [], {}), turns).results;
    assert forall j :: 0 <= j < |results| ==> results[0 + j] == results[j];
  }

  lemma PassAssesses(reals: seq<RealTurn>, turns: seq<Monitor.Turn<MonitorResult>>, results: seq<MonitorResult>)
    requires |turns| == |reals| && forall j :: 0 <= j < |turns| ==> SaidBy(reals[j], turns[j])
    requires |results| <= |turns|
    requires forall j :: 0 <= j < |results| ==>
               !Monitor.Invalid(turns[j].mod) && results[j] == Monitor.ResultOf(turns[j])
    requires |results| < |turns| ==> Monitor.Invalid(turns[|results|].mod)
    ensures Assessed(reals, results)
  {
    forall j | 0 <= j < |results| ensures Configured(reals[j]) && Judged(reals[j], results[j]) {
      ResultIsJudged(reals[j], turns[j]);
    }
    if |results| < |reals| {
      ResultIsJudged(reals[|results|], turns[|results|]);
    }
  }

  /** The worst status of assessed results, and the handler, follow the modules' readings. */
  lemma UrgentExactlyWhenAModuleCallsForExit(reals: seq<RealTurn>, results: seq<MonitorResult>)
    requires Assessed(reals, results)
    ensures URGENT in StatusesOf(results) <==> exists j :: 0 <= j < |results| && CallsForExit(reals[j])
    ensures URGENT in StatusesOf(results) <==> exists r :: r in results && HasUrgentFinding(r)
    ensures URGENT in StatusesOf(results) <==> Urgents(results) != []
  {
    forall r | r in results ensures Honest(r) {
      var j :| 0 <= j < |results| && results[j] == r;
    }
    UrgentStatusMeansUrgentFinding(results);
    if j :| 0 <= j < |results| && CallsForExit(reals[j]) {
      assert results[j] in results && results[j].status == URGENT;
    }
  }

  lemma OtherStatuses(reals: seq<RealTurn>, results: seq<MonitorResult>)
    requires Assessed(reals, results)
    ensures WARN in StatusesOf(results)
            <==> exists j :: 0 <= j < |results| && CallsForAttention(reals[j]) && !CallsForExit(reals[j])
    ensures OK in StatusesOf(results)
            <==> exists j :: 0 <= j < |results| && Observes(reals[j]) && !CallsForAttention(reals[j])
    ensures forall j :: 0 <= j < |results| && CallsForExit(reals[j]) ==> CallsForAttention(reals[j])
  {
    forall j | 0 <= j < |results| ensures results[j] in results && Judged(reals[j], results[j]) {}
    forall j | 0 <= j < |results| && CallsForExit(reals[j]) ensures CallsForAttention(reals[j]) {
      ExitIsWorthAttention(reals[j]);
    }
    forall r | r in results ensures exists j :: 0 <= j < |results| && results[j] == r {}
  }

  /** Any mix of the three modules, each succeeding or failing. The results are those of the
      pass over what the modules themselves say. The worst status is URGENT exactly when some
      module that was reached calls for an exit, which is when some finding is urgent, which
      is when the handler does anything at all; it is WARN, OK or UNKNOWN exactly when the
      readings say so; failed modules only ever warn. */
  method AssessTick(reals: seq<RealTurn>, latest: Monitor.Latest)
    returns (results: seq<MonitorResult>, worst: MonitorStatus, ghost turns: seq<Monitor.Turn<MonitorResult>>)
    ensures |turns| == |reals| && forall j :: 0 <= j < |turns| ==> SaidBy(reals[j], turns[j])
    ensures results == Monitor.Pass(Monitor.Progress([], latest, [], {}), turns).results
    ensures Assessed(reals, results)
    ensures worst == URGENT <==> exists j :: 0 <= j < |results| && CallsForExit(reals[j])
    ensures worst == URGENT <==> exists r :: r in results && HasUrgentFinding(r)
    ensures worst == WARN <==> && (exists j :: 0 <= j < |results| && CallsForAttention(reals[j]))
                               && (forall j :: 0 <= j < |results| ==> !CallsForExit(reals[j]))
    ensures worst == OK <==> && (exists j :: 0 <= j < |results| && Observes(reals[j]))
                             && (forall j :: 0 <= j < |results| ==> !CallsForAttention(reals[j]))
    ensures worst == UNKNOWN <==> forall j :: 0 <= j < |results| ==> !Observes(reals[j])
    ensures forall config, s, moments :: NothingHappens(config, s, results, moments) <==> worst != URGENT
  {
    var asked := AskAll(reals);
    turns := asked;
    results := Monitor.Pass(Monitor.Progress([], latest, [], {}), asked).results;
    PassOverAll(asked, latest);
    PassAssesses(reals, asked, results);
    UrgentExactlyWhenAModuleCallsForExit(reals, results);
    worst := WorstKnownStatus(StatusesOf(results));
    OtherStatuses(reals, results);
    forall config, s, moments ensures NothingHappens(config, s, results, moments) <==> worst != URGENT {
      HandlerActsExactlyWhenUrgent(config, s, results, moments);
    }
  }
}
