/** Findings, results and statuses of the monitor (internal/core). */
module Core {

  const SEVERITY_WARN := "warn"
  const SEVERITY_URGENT := "urgent"

  /** The two severities that are compared with, and any other text. */
  datatype Severity = Warn | Urgent | OtherText(text: string)

  function SeverityOf(text: string): Severity {
    if text == SEVERITY_WARN then Warn else if text == SEVERITY_URGENT then Urgent else OtherText(text)
  }

  /** UNKNOWN also stands for any text that is none of the three known statuses. */
  datatype MonitorStatus = OK | WARN | URGENT | UNKNOWN

  const MODULE_SHARE_PRICE_LOSS := "share_price_loss"
  const MODULE_WITHDRAW_LIQUIDITY := "withdraw_liquidity"
  const MODULE_VAULT_STATE := "vault_state_baseline"

  const FINDING_SHARE_PRICE_LOSS := "share_price_loss"
  const FINDING_IDLE_LIQUIDITY := "idle_liquidity"
  const FINDING_EXIT_SIMULATION := "exit_simulation"
  const FINDING_VAULT_STATE_DIFF := "vault_state_diff"
  const FINDING_STALE_DATA := "stale_data"

  /** A printed value, before it is printed. */
  datatype Printed = Number(n: int) | Flag(b: bool) | Word(text: string)

  datatype Metric = Metric(key: string, value: Printed, unit: string)

  datatype Finding = Finding(key: string, severity: Severity, message: string, evidence: map<string, Printed>)

  datatype MonitorResult = MonitorResult(
    moduleID: string, status: MonitorStatus, observedAt: int, metrics: seq<Metric>, findings: seq<Finding>)

  predicate HasUrgentFinding(r: MonitorResult) {
    exists i :: 0 <= i < |r.findings| && r.findings[i].severity == Urgent
  }

  /** A result that says URGENT exactly when one of its findings does. */
  predicate Honest(r: MonitorResult) {
    r.status == URGENT <==> HasUrgentFinding(r)
  }

  /** URGENT beats WARN beats OK, and only with none of the three there is nothing known. */
  method WorstKnownStatus(statuses: seq<MonitorStatus>) returns (worst: MonitorStatus)
    ensures worst == URGENT <==> URGENT in statuses
    ensures worst == WARN <==> URGENT !in statuses && WARN in statuses
    ensures worst == OK <==> URGENT !in statuses && WARN !in statuses && OK in statuses
  {
    worst := OK;
    var seenKnown := false;
    for i := 0 to |statuses|
      invariant URGENT !in statuses[..i]
      invariant worst == if WARN in statuses[..i] then WARN else OK
      invariant seenKnown <==> WARN in statuses[..i] || OK in statuses[..i]
    {
      match statuses[i]
      case URGENT => return URGENT;
      case WARN => seenKnown, worst := true, WARN;
      case OK => seenKnown := true;
      case UNKNOWN =>
    }
    if !seenKnown {
      worst := UNKNOWN;
    }
  }
}
