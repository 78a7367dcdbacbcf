/** Where every row and every override comes from: which command made it, when, and what that
    command said (internal/app/providers.go, internal/storage/repositories.go). */
module ThresholdProvenance {
  import opened Wrappers
  import opened Core
  import opened Units
  import opened Overrides
  import opened Thresholds
  import opened ThresholdRuns

  /** The five thresholds that can be set. */
  predicate IsThreshold(moduleID: string, key: string) {
    || (moduleID == "share_price_loss" && (key == "loss_warn_bps" || key == "loss_urgent_bps"))
    || (moduleID == "withdraw_liquidity" && (key == "idle_warn_threshold_usdc" || key == "idle_urgent_threshold_usdc"))
    || (moduleID == "vault_state_baseline" && key == "change_severity")
  }

  lemma AllowedExactlyWhen(moduleID: string, key: string)
    ensures Allowed(moduleID, key) <==> IsThreshold(moduleID, key)
  {
  }

  /** When a confirmation asked for at a time runs out: after the configured time to live, or
      after ten minutes if none is configured. */
  function RunsOut(config: ProviderConfig, since: int): int {
    since + if config.ttl > 0 then config.ttl else 10 * 60 * 1_000_000_000
  }

  // ----- one command -----

  /** Why a set command is refused, in the order of its checks. */
  lemma SetError(config: ProviderConfig, p: Protocol, request: SetRequest, now: int, faults: Faults)
    ensures var id := ConfirmationID(request.moduleID, request.key, request.userID);
            SetStep(config, p, request, now, faults).error
            == (if AllowedKeys(request.moduleID).None? then Some(UnknownModule)
                else if !Allowed(request.moduleID, request.key) then Some(UnknownKey)
                else if faults.list then Some(ListFailed)
                else if !AcceptableNow(config, p.store, request) then Some(ChangeRejected)
                else if faults.insert || id in p.store.pending then Some(InsertFailed)
                else None)
  {
  }

  /** A refused one changes nothing, and an accepted one adds one row and nothing else. */
  lemma SetOutcome(config: ProviderConfig, p: Protocol, request: SetRequest, now: int, faults: Faults)
    ensures var done, id := SetStep(config, p, request, now, faults),
                            ConfirmationID(request.moduleID, request.key, request.userID);
            if done.error.Some? then done.next == p
            else
              && Allowed(request.moduleID, request.key) && id !in p.store.pending
              && done.next
                   == WithPending(p, id, PendingRow(THRESHOLD_KIND, request, request.userID, RunsOut(config, now), now))
  {
    var id := ConfirmationID(request.moduleID, request.key, request.userID);
    var row := PendingRow(THRESHOLD_KIND, request, request.userID, RunsOut(config, now), now);
    SetIsAnInsert(config, p, request, now, faults);
    assert id !in p.store.pending ==> InsertStep(p, id, row, faults).next in {p, WithPending(p, id, row)};
  }

  lemma SetIsAnInsert(config: ProviderConfig, p: Protocol, request: SetRequest, now: int, faults: Faults)
    ensures var done := SetStep(config, p, request, now, faults);
            || (done.error.Some? && done.next == p)
            || (Allowed(request.moduleID, request.key)
                && done == InsertStep(p, ConfirmationID(request.moduleID, request.key, request.userID),
                                      PendingRow(THRESHOLD_KIND, request, request.userID, RunsOut(config, now), now),
                                        faults))
  {
  }

  /** Why a confirm command fails, in the order of its checks. Before the row is deleted a
      failure changes nothing; after that the row is gone, and the override is stored exactly
      when nothing failed before the audit event. */
  lemma ConfirmOutcome(config: ProviderConfig, p: Protocol, user: int, id: string, now: int, faults: Faults)
    requires id in p.store.pending ==> RowWellFormed(config, p.store.pending[id])
    ensures var done := ConfirmStep(config, p, user, id, now, faults);
            if faults.lookup then done == Step(p, Some(LookupFailed))
            else if id !in p.store.pending then done == Step(p, Some(NotFound))
            else
              var row := p.store.pending[id];
              if row.requestedBy != user then done == Step(p, Some(WrongRequester))
              else if faults.remove then done == Step(p, Some(RemoveFailed))
              else if now >= row.expiresAt then done == Step(WithDiscarded(p, id), Some(Expired))
              else if faults.list then done == Step(WithDiscarded(p, id), Some(ListFailed))
              else if !AcceptableNow(config, p.store, row.request)
              then done == Step(WithDiscarded(p, id), Some(ChangeRejected))
              else if faults.upsert then done == Step(WithDiscarded(p, id), Some(UpsertFailed))
              else
                done == Step(WithApplied(p, id, row.request, user, now),
                             if faults.record then Some(RecordFailed) else None)
  {
  }

  // ----- all commands of a run -----

  predicate Inserts(config: ProviderConfig, p: Protocol, c: Command) {
    |Execute(config, p, c).next.history.inserted| > |p.history.inserted|
  }

  predicate Applies(config: ProviderConfig, p: Protocol, c: Command) {
    |Execute(config, p, c).next.history.applied| > |p.history.applied|
  }

  /** The commands of a run that insert a row, and those that apply one, by their position. */
  function Inserting(config: ProviderConfig, commands: seq<Command>): seq<nat> {
    if commands == [] then []
    else
      var n := |commands| - 1;
      Inserting(config, commands[..n]) + if Inserts(config, After(config, commands[..n]), commands[n]) then [n] else []
  }

  function Applying(config: ProviderConfig, commands: seq<Command>): seq<nat> {
    if commands == [] then []
    else
      var n := |commands| - 1;
      Applying(config, commands[..n]) + if Applies(config, After(config, commands[..n]), commands[n]) then [n] else []
  }

  /** The row is what the set command asked for, dated by that command's clock. */
  predicate MadeBy(config: ProviderConfig, c: Command, row: PendingRow) {
    && c.Set? && IsThreshold(c.request.moduleID, c.request.key)
    && row == PendingRow(THRESHOLD_KIND, c.request, c.request.userID, RunsOut(config, c.now), c.now)
  }

  /** Each pending row is kept under the id of its request. */
  predicate KeptByID(p: Protocol) {
    forall id :: id in p.store.pending ==>
      var r := p.store.pending[id].request; id == ConfirmationID(r.moduleID, r.key, r.userID)
  }

  /** The application is what the confirm command asked for, dated by that command's clock. */
  predicate AppliedBy(c: Command, a: Applied, before: Protocol) {
    && c.Confirm? && a.user == c.user && a.at == c.now
    && c.id == ConfirmationID(a.moduleID, a.key, a.user)
    && a.inserted == |before.history.inserted|
  }

  /** The history of rows is what it was, or has one more that the command made. */
  ghost predicate MoreRows(config: ProviderConfig, p: Protocol, c: Command, next: Protocol) {
    if Inserts(config, p, c)
    then exists row :: next.history.inserted == p.history.inserted + [row] && MadeBy(config, c, row)
    else next.history.inserted == p.history.inserted
  }

  ghost predicate MoreApplied(config: ProviderConfig, p: Protocol, c: Command, next: Protocol) {
    if Applies(config, p, c)
    then exists a :: next.history.applied == p.history.applied + [a] && AppliedBy(c, a, p)
    else next.history.applied == p.history.applied
  }

  lemma SetAdds(config: ProviderConfig, p: Protocol, c: Command)
    requires KeptByID(p) && c.Set?
    ensures var next := Execute(config, p, c).next;
            KeptByID(next) && MoreRows(config, p, c, next) && MoreApplied(config, p, c, next)
  {
    var next := Execute(config, p, c).next;
    SetOutcome(config, p, c.request, c.now, c.faults);
    if next != p {
      AllowedExactlyWhen(c.request.moduleID, c.request.key);
      assert next.history.inserted == p.history.inserted + [next.history.inserted[|p.history.inserted|]];
    }
  }

  lemma ConfirmAdds(config: ProviderConfig, p: Protocol, c: Command)
    requires Accounted(config, p) && KeptByID(p) && c.Confirm?
    ensures var next := Execute(config, p, c).next;
            KeptByID(next) && MoreRows(config, p, c, next) && MoreApplied(config, p, c, next)
  {
    var next := Execute(config, p, c).next;
    if c.id in p.store.pending {
      assert p.history.inserted[p.history.origin[c.id]] == p.store.pending[c.id];
      ConfirmOutcome(config, p, c.user, c.id, c.now, c.faults);
      if Applies(config, p, c) {
        assert next.history.applied == p.history.applied + [next.history.applied[|p.history.applied|]];
      }
    }
  }

  lemma CommandAdds(config: ProviderConfig, p: Protocol, c: Command, next: Protocol)
    requires Accounted(config, p) && KeptByID(p) && next == Execute(config, p, c).next
    ensures KeptByID(next) && MoreRows(config, p, c, next) && MoreApplied(config, p, c, next)
  {
    if c.Set? {
      SetAdds(config, p, c);
    } else {
      ConfirmAdds(config, p, c);
    }
  }

  ghost predicate RowsFrom(config: ProviderConfig, commands: seq<Command>, rows: seq<PendingRow>, inserting: seq<nat>) {
    && |inserting| == |rows|
    && (forall n :: 0 <= n < |rows| ==> inserting[n] < |commands| && MadeBy(config, commands[inserting[n]], rows[n]))
    && (forall m, n :: 0 <= m < n < |rows| ==> inserting[m] < inserting[n])
  }

  ghost predicate AppliedFrom(config: ProviderConfig, commands: seq<Command>, applied: seq<Applied>,
                              applying: seq<nat>)
  {
    && |applying| == |applied|
    && (forall i :: 0 <= i < |applied| ==>
          && applying[i] < |commands|
          && AppliedBy(commands[applying[i]], applied[i], After(config, commands[..applying[i]])))
    && (forall i, j :: 0 <= i < j < |applied| ==> applying[i] < applying[j])
  }

  lemma RowsExtended(config: ProviderConfig, commands: seq<Command>, rows: seq<PendingRow>, inserting: seq<nat>,
                     rows': seq<PendingRow>, inserting': seq<nat>)
    requires commands != [] && RowsFrom(config, commands[..|commands| - 1], rows, inserting)
    requires || (rows' == rows && inserting' == inserting)
             || (&& (exists row :: rows' == rows + [row] && MadeBy(config, commands[|commands| - 1], row))
                 && inserting' == inserting + [|commands| - 1])
    ensures RowsFrom(config, commands, rows', inserting')
  {
    assert forall n :: 0 <= n < |rows| ==> commands[..|commands| - 1][inserting[n]] == commands[inserting[n]];
  }

  lemma AppliedExtended(config: ProviderConfig, commands: seq<Command>, applied: seq<Applied>, applying: seq<nat>,
                        applied': seq<Applied>, applying': seq<nat>)
    requires commands != [] && AppliedFrom(config, commands[..|commands| - 1], applied, applying)
    requires || (applied' == applied && applying' == applying)
             || (&& (exists a :: applied' == applied + [a]
                                 && AppliedBy(commands[|commands| - 1], a, After(config, commands[..|commands| - 1])))
                 && applying' == applying + [|commands| - 1])
    ensures AppliedFrom(config, commands, applied', applying')
  {
    var n := |commands| - 1;
    forall i | 0 <= i < |applied|
      ensures applying[i] < |commands|
      ensures AppliedBy(commands[applying[i]], applied[i], After(config, commands[..applying[i]]))
    {
      assert commands[..n][..applying[i]] == commands[..applying[i]]
          && commands[..n][applying[i]] == commands[applying[i]];
    }
  }

  /** Every row ever inserted was asked for by a set command of the run, each by its own, in the
      order of the commands. */
  lemma {:induction false} EveryRowComesFromASet(config: ProviderConfig, commands: seq<Command>)
    ensures RowsFrom(config, commands, After(config, commands).history.inserted, Inserting(config, commands))
    ensures KeptByID(After(config, commands))
  {
    if commands != [] {
      var n := |commands| - 1;
      var p, next := After(config, commands[..n]), After(config, commands);
      EveryRowComesFromASet(config, commands[..n]);
      ReachableIsAccounted(config, commands[..n]);
      CommandAdds(config, p, commands[n], next);
      RowsExtended(config, commands, p.history.inserted, Inserting(config, commands[..n]),
                   next.history.inserted, Inserting(config, commands));
    }
  }

  /** Every application was asked for by a confirm command of the run, each by its own. */
  lemma {:induction false} EveryApplicationComesFromAConfirm(config: ProviderConfig, commands: seq<Command>)
    ensures AppliedFrom(config, commands, After(config, commands).history.applied, Applying(config, commands))
  {
    if commands != [] {
      var n := |commands| - 1;
      var p, next := After(config, commands[..n]), After(config, commands);
      EveryApplicationComesFromAConfirm(config, commands[..n]);
      EveryRowComesFromASet(config, commands[..n]);
      ReachableIsAccounted(config, commands[..n]);
      CommandAdds(config, p, commands[n], next);
      AppliedExtended(config, commands, p.history.applied, Applying(config, commands[..n]),
                      next.history.applied, Applying(config, commands));
    }
  }

  lemma {:induction false} InsertingGrows(config: ProviderConfig, commands: seq<Command>, k: nat)
    requires k <= |commands|
    ensures Inserting(config, commands[..k]) <= Inserting(config, commands)
  {
    if k == |commands| {
      assert commands[..k] == commands;
    } else {
      InsertingGrows(config, commands[..|commands| - 1], k);
      assert commands[..|commands| - 1][..k] == commands[..k];
    }
  }

  /** Every application of every run: a set command and a later confirm command by the same user,
      for the id of that request, strictly before the time to live since the set has passed.
      What is applied is the module, key and value that the set command named. */
  lemma EveryApplicationIsASetAndATimelyConfirm(config: ProviderConfig, commands: seq<Command>, i: nat)
    requires i < |After(config, commands).history.applied|
    ensures var a := After(config, commands).history.applied[i];
            && a.origin < |Inserting(config, commands)| && i < |Applying(config, commands)|
            && var s, k := Inserting(config, commands)[a.origin], Applying(config, commands)[i];
               && s < k < |commands| && commands[s].Set? && commands[k].Confirm?
               && commands[s].request == SetRequest(a.moduleID, a.key, a.value, a.user)
               && commands[k].user == a.user && commands[k].id == ConfirmationID(a.moduleID, a.key, a.user)
               && a.at == commands[k].now < RunsOut(config, commands[s].now)
  {
    var a := After(config, commands).history.applied[i];
    ReachableIsAccounted(config, commands);
    assert Provenance(config, After(config, commands).history.inserted, a);
    EveryRowComesFromASet(config, commands);
    EveryApplicationComesFromAConfirm(config, commands);
    var k := Applying(config, commands)[i];
    EveryRowComesFromASet(config, commands[..k]);
    InsertingGrows(config, commands, k);
    assert MadeBy(config, commands[Inserting(config, commands)[a.origin]],
                  After(config, commands).history.inserted[a.origin]);
  }

  // ----- what a confirmed threshold does -----

  /** The module has the threshold that the text says. */
  predicate InForce(m: Module, moduleID: string, key: string, value: string, decimals: nat) {
    && (moduleID == "share_price_loss" && key == "loss_warn_bps" ==>
          m.OfSharePrice? && ParseInt64(value) == Some(m.sharePrice.warnBPS))
    && (moduleID == "share_price_loss" && key == "loss_urgent_bps" ==>
          m.OfSharePrice? && ParseInt64(value) == Some(m.sharePrice.urgentBPS))
    && (moduleID == "withdraw_liquidity" && key == "idle_warn_threshold_usdc" ==>
          m.OfLiquidity? && m.liquidity.idleWarn.Some?
          && ParseDecimalUnits(value, decimals) == Success(m.liquidity.idleWarn.value))
    && (moduleID == "withdraw_liquidity" && key == "idle_urgent_threshold_usdc" ==>
          m.OfLiquidity? && m.liquidity.idleUrgent.Some?
          && ParseDecimalUnits(value, decimals) == Success(m.liquidity.idleUrgent.value))
    && (moduleID == "vault_state_baseline" && key == "change_severity" ==>
          m.OfVaultState? && (|| (value == "warn" && m.vaultState.changeSeverity == Warn)
                              || (value == "urgent" && m.vaultState.changeSeverity == Urgent)))
  }

  predicate IsModule(m: Module, moduleID: string) {
    && (moduleID == "share_price_loss" ==> m.OfSharePrice?)
    && (moduleID == "withdraw_liquidity" ==> m.OfLiquidity?)
    && (moduleID == "vault_state_baseline" ==> m.OfVaultState?)
  }

  /** The stored override of a threshold is in force in the module that runs. */
  lemma StoredThresholdIsInForce(m: Module, overrides: map<(string, string), OverrideRow>,
                                 moduleID: string, key: string, decimals: nat)
    requires (moduleID, key) in overrides && IsModule(m, moduleID) && EffectiveExists(m, ValuesOf(overrides), decimals)
    ensures InForce(Effective(m, ValuesOf(overrides), decimals), moduleID, key, overrides[(moduleID, key)].value,
                    decimals)
  {
    EffectiveThresholdsAre(m, ValuesOf(overrides), decimals);
  }
}
