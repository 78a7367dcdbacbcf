/** Alerts and withdrawals for urgent findings (internal/app/alerts.go). */
module Alerts {
  import opened Wrappers
  import opened Core
  import opened Withdraw

  const TRIGGER_KIND_URGENT := "urgent"

  /** A finding to act on, with the module that reported it. */
  datatype UrgentFinding = UrgentFinding(moduleID: string, finding: Finding)

  datatype Effect = Alert(text: string) | Exit(trigger: Trigger)

  /** The effect that failed, and what the withdrawal service said if it was a withdrawal. */
  datatype AlertError = EffectFailed(effect: Effect, cause: Option<ExecError>)

  /** What meets the i-th urgent finding: a notifier that works or not, and the answers
      given to the withdrawal service. */
  datatype Moment = Moment(alertOK: bool, answers: Answers)

  /** The withdrawal service, and the effects that have succeeded so far. */
  datatype AlertState = AlertState(withdrawal: State, trace: seq<Effect>)

  function TriggerFor(u: UrgentFinding): Trigger {
    Trigger(TRIGGER_KIND_URGENT, u.moduleID, u.finding.key)
  }

  function UrgentsOf(moduleID: string, findings: seq<Finding>): seq<UrgentFinding> {
    if findings == [] then []
    else
      (if findings[0].severity == Urgent then [UrgentFinding(moduleID, findings[0])] else [])
      + UrgentsOf(moduleID, findings[1..])
  }

  /** All urgent findings of a list of results, in order. */
  function Urgents(results: seq<MonitorResult>): seq<UrgentFinding> {
    if results == [] then [] else UrgentsOf(results[0].moduleID, results[0].findings) + Urgents(results[1..])
  }

  function ActOn(config: ServiceConfig, s: AlertState, u: UrgentFinding, moment: Moment)
    : (AlertState, Option<AlertError>)
  {
    var alert, exit := Alert(u.finding.message), Exit(TriggerFor(u));
    if !moment.alertOK then (s, Some(EffectFailed(alert, None)))
    else
      var step := Step(config, s.withdrawal, Call(TriggerFor(u), moment.answers));
      if step.outcome.error.Some?
      then (AlertState(step.state, s.trace + [alert]), Some(EffectFailed(exit, step.outcome.error)))
      else (AlertState(step.state, s.trace + [alert] + [exit]), None)
  }

  /** An alert, then a withdrawal, for each finding in turn; the first failure ends it. */
  function HandleFrom(config: ServiceConfig, s: AlertState, us: seq<UrgentFinding>, moments: nat -> Moment, i: nat)
    : (AlertState, Option<AlertError>)
    decreases |us|
  {
    if us == [] then (s, None)
    else
      var (next, error) := ActOn(config, s, us[0], moments(i));
      if error.Some? then (next, error) else HandleFrom(config, next, us[1..], moments, i + 1)
  }

  /** One tick: all urgent findings of its results. */
  function HandleAll(config: ServiceConfig, s: AlertState, results: seq<MonitorResult>, moments: nat -> Moment)
    : (AlertState, Option<AlertError>)
  {
    HandleFrom(config, s, Urgents(results), moments, 0)
  }

  class AlertService {
    const withdrawer: Service
    ghost var trace: seq<Effect>

    ghost function View(): AlertState
      reads this, withdrawer
    {
      AlertState(withdrawer.View(), trace)
    }

    constructor (withdrawer: Service)
      ensures this.withdrawer == withdrawer && trace == []
    {
      this.withdrawer := withdrawer;
      trace := [];
    }

    method SendAlert(text: string, answer: bool) returns (ok: bool)
      modifies this`trace
      ensures ok == answer
      ensures trace == if ok then old(trace) + [Alert(text)] else old(trace)
    {
      ok := answer;
      if ok {
        trace := trace + [Alert(text)];
      }
    }

    method HandleUrgent(u: UrgentFinding, a: Answers) returns (error: Option<ExecError>)
      modifies this`trace, withdrawer
      ensures var step := Step(withdrawer.config, old(withdrawer.View()), Call(TriggerFor(u), a));
              && withdrawer.View() == step.state && error == step.outcome.error
              && trace == if error.None? then old(trace) + [Exit(TriggerFor(u))] else old(trace)
    {
      var outcome := withdrawer.ExecuteFullExit(TriggerFor(u), a);
      error := outcome.error;
      if error.None? {
        trace := trace + [Exit(TriggerFor(u))];
      }
    }

    /** An alert, then a withdrawal, for one finding. */
    method Act(u: UrgentFinding, moment: Moment) returns (error: Option<AlertError>)
      modifies this, withdrawer
      ensures (View(), error) == ActOn(withdrawer.config, old(View()), u, moment)
    {
      var sent := SendAlert(u.finding.message, moment.alertOK);
      if !sent {
        return Some(EffectFailed(Alert(u.finding.message), None));
      }
      var failure := HandleUrgent(u, moment.answers);
      if failure.Some? {
        return Some(EffectFailed(Exit(TriggerFor(u)), failure));
      }
      return None;
    }

    method HandleMonitorResults(results: seq<MonitorResult>, moments: nat -> Moment) returns (error: Option<AlertError>)
      modifies this, withdrawer
      ensures (View(), error) == HandleAll(withdrawer.config, old(View()), results, moments)
    {
      ghost var start := View();
      var count := 0;
      for i := 0 to |results|
        invariant HandleFrom(withdrawer.config, start, Urgents(results), moments, 0)
               == HandleFrom(withdrawer.config, View(), Urgents(results[i..]), moments, count)
      {
        var result := results[i];
        ghost var later := Urgents(results[i + 1..]);
        assert results[i..][1..] == results[i + 1..];
        for j := 0 to |result.findings|
          invariant HandleFrom(withdrawer.config, start, Urgents(results), moments, 0)
                 == HandleFrom(withdrawer.config, View(), UrgentsOf(result.moduleID, result.findings[j..]) + later,
                               moments, count)
        {
          if result.findings[j].severity != Urgent {
            UrgentsSkip(result.moduleID, result.findings, j);
            continue;
          }
          UrgentsTake(result.moduleID, result.findings, j, later);
          error := Act(UrgentFinding(result.moduleID, result.findings[j]), moments(count));
          if error.Some? {
            return;
          }
          count := count + 1;
        }
        assert result.findings[|result.findings|..] == [] && [] + later == later;
      }
      error := None;
    }
  }

  lemma UrgentsSkip(moduleID: string, findings: seq<Finding>, j: nat)
    requires j < |findings| && findings[j].severity != Urgent
    ensures UrgentsOf(moduleID, findings[j..]) == UrgentsOf(moduleID, findings[j + 1..])
  {
    assert findings[j..][1..] == findings[j + 1..];
  }

  lemma UrgentsTake(moduleID: string, findings: seq<Finding>, j: nat, later: seq<UrgentFinding>)
    requires j < |findings| && findings[j].severity == Urgent
    ensures var us := UrgentsOf(moduleID, findings[j..]) + later;
            us != [] && us[0] == UrgentFinding(moduleID, findings[j])
              && us[1..] == UrgentsOf(moduleID, findings[j + 1..]) + later
  {
    assert findings[j..][1..] == findings[j + 1..];
  }
}
