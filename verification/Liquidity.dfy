/** The withdraw liquidity module (internal/monitor/modules/morpho/withdraw_liquidity.go). */
module Liquidity {
  import opened Wrappers
  import opened Core
  import opened Exit

  datatype ModuleError =
    | ReaderRequired | SimulatorRequired | OwnerRequired | ReceiverRequired | VaultRequired
    | IdleWarnNotPositive | IdleUrgentNotPositive | WarnBelowUrgent
    | IdleFailed | IdleNegative | PositionFailed | SharesNotPositive
    | VaultMismatch | OwnerMismatch | ReceiverMismatch
    | ExpectedNegative | ExpectedRequired

  datatype LiquidityModule = LiquidityModule(
    hasReader: bool, hasSimulator: bool, owner: Address, receiver: Address, vault: Address,
    idleWarn: Option<int>, idleUrgent: Option<int>)

  function ValidateConfig(m: LiquidityModule): (r: Option<ModuleError>)
    ensures r.None? <==>
              && m.hasReader && m.hasSimulator && m.owner != 0 && m.receiver != 0 && m.vault != 0
              && m.idleWarn.Some? && m.idleUrgent.Some? && m.idleWarn.value >= m.idleUrgent.value > 0
  {
    if !m.hasReader then Some(ReaderRequired)
    else if !m.hasSimulator then Some(SimulatorRequired)
    else if m.owner == ZERO_ADDRESS then Some(OwnerRequired)
    else if m.receiver == ZERO_ADDRESS then Some(ReceiverRequired)
    else if m.vault == ZERO_ADDRESS then Some(VaultRequired)
    else if m.idleWarn.None? || m.idleWarn.value <= 0 then Some(IdleWarnNotPositive)
    else if m.idleUrgent.None? || m.idleUrgent.value <= 0 then Some(IdleUrgentNotPositive)
    else if m.idleWarn.value < m.idleUrgent.value then Some(WarnBelowUrgent)
    else None
  }

  function ValidatePosition(m: LiquidityModule, position: PositionSnapshot): Option<ModuleError> {
    if position.vault != m.vault then Some(VaultMismatch)
    else if position.owner != m.owner then Some(OwnerMismatch)
    else if position.receiver != m.receiver then Some(ReceiverMismatch)
    else None
  }

  function IdleFinding(m: LiquidityModule, severity: Severity, idle: int): Finding
    requires m.idleWarn.Some? && m.idleUrgent.Some?
  {
    Finding(FINDING_IDLE_LIQUIDITY, severity, "idle liquidity crossed threshold",
            map["idle_assets" := Number(idle),
                "idle_warn_threshold_usdc" := Number(m.idleWarn.value),
                "idle_urgent_threshold_usdc" := Number(m.idleUrgent.value)])
  }

  /** Below the urgent threshold the finding is urgent, below the warn threshold it warns. */
  function IdleFindings(m: LiquidityModule, idle: int): seq<Finding>
    requires ValidateConfig(m).None?
  {
    if idle >= m.idleWarn.value then []
    else [Finding("idle_liquidity", if idle < m.idleUrgent.value then Urgent else Warn,
                  "idle liquidity crossed threshold",
                  map["idle_assets" := Number(idle),
                      "idle_warn_threshold_usdc" := Number(m.idleWarn.value),
                      "idle_urgent_threshold_usdc" := Number(m.idleUrgent.value)])]
  }

  /** A failed simulation is one urgent finding. */
  function SimulationFindings(success: bool, expected: int): seq<Finding> {
    if success then []
    else [Finding("exit_simulation", Urgent, "full-exit simulation failed",
                  map["expected_exit_assets" := Number(expected), "simulation_success" := Flag(false)])]
  }

  function SimulationFinding(expected: int): Finding {
    Finding(FINDING_EXIT_SIMULATION, Urgent, "full-exit simulation failed",
            map["expected_exit_assets" := Number(expected), "simulation_success" := Flag(false)])
  }

  /** Everything before the thresholds went well. */
  predicate Observable(m: LiquidityModule, idle: Result<Option<int>, Unseen>,
                       position: Result<PositionSnapshot, Unseen>, simulation: FullExitSimulation)
  {
    && ValidateConfig(m).None?
    && idle.Success? && idle.value.Some? && idle.value.value >= 0
    && position.Success? && position.value.shareBalance.Some? && position.value.shareBalance.value > 0
    && position.value.vault == m.vault && position.value.owner == m.owner && position.value.receiver == m.receiver
    && (if simulation.expectedAssetUnits.Some? then simulation.expectedAssetUnits.value >= 0 else !simulation.success)
  }

  function RequestOf(m: LiquidityModule, shares: int): FullExitRequest {
    FullExitRequest(m.vault, m.owner, m.receiver, Some(shares))
  }

  method Judge(m: LiquidityModule, idle: int, success: bool, expected: int)
    returns (status: MonitorStatus, findings: seq<Finding>)
    requires ValidateConfig(m).None?
    ensures status == URGENT <==> idle < m.idleUrgent.value || !success
    ensures status == OK <==> idle >= m.idleWarn.value && success
    ensures status != UNKNOWN
    ensures status == URGENT <==> exists i :: 0 <= i < |findings| && findings[i].severity == Urgent
    ensures findings == IdleFindings(m, idle) + SimulationFindings(success, expected)
  {
    status, findings := OK, [];
    if idle < m.idleUrgent.value {
      status := URGENT;
      findings := findings + [IdleFinding(m, Urgent, idle)];
      assert findings[0].severity == Urgent;
    } else if idle < m.idleWarn.value {
      status := WARN;
      findings := findings + [IdleFinding(m, Warn, idle)];
    }
    if !success {
      status := URGENT;
      findings := findings + [SimulationFinding(expected)];
      assert findings[|findings| - 1].severity == Urgent;
    }
  }

  /** What the module has to say about the idle assets and the simulated exit. */
  predicate Describes(m: LiquidityModule, idle: int, simulation: FullExitSimulation, now: int, result: MonitorResult)
    requires ValidateConfig(m).None?
  {
    var expected := if simulation.expectedAssetUnits.Some? then simulation.expectedAssetUnits.value else 0;
    && result.moduleID == MODULE_WITHDRAW_LIQUIDITY && result.observedAt == now
    && result.metrics == [Metric("idle_assets", Number(idle), "asset_units"),
                          Metric("expected_exit_assets", Number(expected), "asset_units")]
    && Honest(result) && result.status != UNKNOWN
    && (result.status == URGENT <==> idle < m.idleUrgent.value || !simulation.success)
    && (result.status == OK <==> idle >= m.idleWarn.value && simulation.success)
    && result.findings == IdleFindings(m, idle) + SimulationFindings(simulation.success, expected)
  }

  /** The simulation the module looks at, once there is a position to exit from: of leaving with
      all its shares. An error of the simulator counts as a failed simulation. */
  function Outlook(m: LiquidityModule, position: Result<PositionSnapshot, Unseen>,
                   simulate: FullExitRequest -> SimulationAnswer)
    : FullExitSimulation
  {
    if position.Success? && position.value.shareBalance.Some? then
      var answer := simulate(FullExitRequest(m.vault, m.owner, m.receiver, position.value.shareBalance));
      if answer.failed then FullExitSimulation(false, None, 0) else answer.simulation
    else FullExitSimulation(false, None, 0)
  }

  method Monitor(m: LiquidityModule, idle: Result<Option<int>, Unseen>, position: Result<PositionSnapshot, Unseen>,
                 simulate: FullExitRequest -> SimulationAnswer, now: int)
    returns (r: Result<MonitorResult, ModuleError>)
    ensures r.Success? <==> Observable(m, idle, position, Outlook(m, position, simulate))
    ensures r.Success? ==> Describes(m, idle.value.value, Outlook(m, position, simulate), now, r.value)
    ensures ValidateConfig(m).Some? ==> r == Failure(ValidateConfig(m).value)
  {
    var problem := ValidateConfig(m);
    if problem.Some? {
      return Failure(problem.value);
    }
    if idle.Failure? {
      return Failure(IdleFailed);
    }
    if idle.value.None? || idle.value.value < 0 {
      return Failure(IdleNegative);
    }
    if position.Failure? {
      return Failure(PositionFailed);
    }
    if position.value.shareBalance.None? || position.value.shareBalance.value <= 0 {
      return Failure(SharesNotPositive);
    }
    var mismatch := ValidatePosition(m, position.value);
    if mismatch.Some? {
      return Failure(mismatch.value);
    }
    var answer := simulate(RequestOf(m, position.value.shareBalance.value));
    var simulation := answer.simulation;
    if answer.failed {
      simulation := NO_SIMULATION;
    }
    var expected := 0;
    if simulation.expectedAssetUnits.Some? {
      if simulation.expectedAssetUnits.value < 0 {
        return Failure(ExpectedNegative);
      }
      expected := simulation.expectedAssetUnits.value;
    } else if simulation.success {
      return Failure(ExpectedRequired);
    }
    var status, findings := Judge(m, idle.value.value, simulation.success, expected);
    return Success(MonitorResult(MODULE_WITHDRAW_LIQUIDITY, status, now,
                                 [Metric("idle_assets", Number(idle.value.value), "asset_units"),
                                  Metric("expected_exit_assets", Number(expected), "asset_units")], findings));
  }
}
