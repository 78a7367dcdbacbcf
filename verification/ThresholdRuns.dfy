/** What every sequence of set and confirm commands keeps, whoever sends them, whenever, and
    whatever the database does. */
module ThresholdRuns {
  import opened Wrappers
  import opened Overrides
  import opened Thresholds

  datatype Command =
    | Set(request: SetRequest, now: int, faults: Faults)
    | Confirm(user: int, id: string, now: int, faults: Faults)

  function Execute(config: ProviderConfig, p: Protocol, c: Command): Step {
    match c
    case Set(request, now, faults) => SetStep(config, p, request, now, faults)
    case Confirm(user, id, now, faults) => ConfirmStep(config, p, user, id, now, faults)
  }

  function After(config: ProviderConfig, commands: seq<Command>): Protocol {
    if commands == [] then START
    else Execute(config, After(config, commands[..|commands| - 1]), commands[|commands| - 1]).next
  }

  // ----- safety: the effective thresholds stay consistent -----

  /** Every configured module that is consistent without overrides is consistent with them. */
  ghost predicate Safe(config: ProviderConfig, t: Table) {
    forall m :: m in config.modules && Consistent(m, config.modules[m], map[], config.assetDecimals) ==>
      Consistent(m, config.modules[m], t, config.assetDecimals)
  }

  /** A change to one module does not reach another. */
  lemma OtherModuleUnaffected(m: string, config: ModuleConfig, t: Table, moduleID: string, key: string, value: string,
                              decimals: nat)
    requires m != moduleID
    ensures Consistent(m, config, t[(moduleID, key) := value], decimals) <==> Consistent(m, config, t, decimals)
  {
    var t' := t[(moduleID, key) := value];
    TableValidElsewhere(t, m, moduleID, key, value, decimals);
    TableValidElsewhere(t, m, moduleID, key, value, 0);
    var surrogate := Surrogate(m, config, decimals);
    if surrogate.Success? {
      assert Effective(surrogate.value, t', decimals) == Effective(surrogate.value, t, decimals);
    }
  }

  lemma TableValidElsewhere(t: Table, m: string, moduleID: string, key: string, value: string, decimals: nat)
    requires m != moduleID
    ensures TableValid(t[(moduleID, key) := value], m, decimals) <==> TableValid(t, m, decimals)
  {
    var t' := t[(moduleID, key) := value];
    forall k: (string, string) | k.0 == m ensures k in t' <==> k in t {
    }
    if TableValid(t', m, decimals) {
      forall k | k in t && k.0 == m ensures ValidateThresholdValue(k.1, t[k], decimals).None? {
        assert k in t' && t'[k] == t[k];
      }
    }
  }

  lemma ExecuteKeepsSafe(config: ProviderConfig, p: Protocol, c: Command)
    requires Safe(config, ValuesOf(p.store.overrides))
    ensures Safe(config, ValuesOf(Execute(config, p, c).next.store.overrides))
  {
    var before, after := p.store.overrides, Execute(config, p, c).next.store.overrides;
    if after != before {
      var r := p.store.pending[c.id].request;
      var t := ValuesOf(before);
      assert ValuesOf(after) == t[(r.moduleID, r.key) := r.value];
      forall m | m in config.modules && Consistent(m, config.modules[m], map[], config.assetDecimals)
        ensures Consistent(m, config.modules[m], ValuesOf(after), config.assetDecimals)
      {
        if m != r.moduleID {
          OtherModuleUnaffected(m, config.modules[m], t, r.moduleID, r.key, r.value, config.assetDecimals);
        }
      }
    }
  }

  lemma {:induction false} ReachableIsSafe(config: ProviderConfig, commands: seq<Command>)
    ensures Safe(config, ValuesOf(After(config, commands).store.overrides))
  {
    if commands == [] {
      assert ValuesOf(START.store.overrides) == map[];
    } else {
      ReachableIsSafe(config, commands[..|commands| - 1]);
      ExecuteKeepsSafe(config, After(config, commands[..|commands| - 1]), commands[|commands| - 1]);
    }
  }

  /** In every reachable state the effective module exists and passes validation, if the
      module as configured does. */
  lemma EffectiveModuleAlwaysValid(config: ProviderConfig, commands: seq<Command>, actual: Module, moduleID: string)
    requires moduleID in config.modules
    requires Surrogate(moduleID, config.modules[moduleID], config.assetDecimals).Success?
    requires SameThresholds(actual, Surrogate(moduleID, config.modules[moduleID], config.assetDecimals).value)
    requires PassesValidation(actual)
    ensures var t := ValuesOf(After(config, commands).store.overrides);
            && EffectiveExists(actual, t, config.assetDecimals)
            && PassesValidation(Effective(actual, t, config.assetDecimals))
  {
    var moduleConfig, t := config.modules[moduleID], ValuesOf(After(config, commands).store.overrides);
    NoOverridesNoEffect(actual, config.assetDecimals);
    SurrogateDecides(actual, moduleID, moduleConfig, map[], config.assetDecimals);
    ReachableIsSafe(config, commands);
    SurrogateDecides(actual, moduleID, moduleConfig, t, config.assetDecimals);
  }

  lemma NoOverridesNoEffect(m: Module, decimals: nat)
    ensures EffectiveExists(m, map[], decimals) && Effective(m, map[], decimals) == m
  {
  }

  // ----- conservation and provenance -----

  /** The override that the last application to a key put there. */
  function LastApplied(applied: seq<Applied>, k: (string, string)): Option<OverrideRow> {
    if applied == [] then None
    else
      var a := applied[|applied| - 1];
      if (a.moduleID, a.key) == k then Some(OverrideRow(a.value, a.user, a.at))
      else LastApplied(applied[..|applied| - 1], k)
  }

  /** Row a.origin is the request that a applied: inserted before, by the same user, for the
      same module, key and value, and confirmed in time. */
  ghost predicate Provenance(config: ProviderConfig, inserted: seq<PendingRow>, a: Applied) {
    && a.origin < a.inserted <= |inserted|
    && var row := inserted[a.origin];
       && row.requestedBy == a.user == row.request.userID
       && row.request.moduleID == a.moduleID && row.request.key == a.key && row.request.value == a.value
       && a.at < row.createdAt + TTL(config)
  }

  ghost predicate RowWellFormed(config: ProviderConfig, row: PendingRow) {
    && row.kind == THRESHOLD_KIND && row.requestedBy == row.request.userID
    && row.expiresAt == row.createdAt + TTL(config)
    && Allowed(row.request.moduleID, row.request.key)
  }

  ghost predicate RowsWellFormed(config: ProviderConfig, inserted: seq<PendingRow>) {
    forall i :: 0 <= i < |inserted| ==> RowWellFormed(config, inserted[i])
  }

  ghost predicate PendingTraced(p: Protocol) {
    && p.history.origin.Keys == p.store.pending.Keys
    && forall id :: id in p.store.pending ==>
         p.history.origin[id] < |p.history.inserted| && p.history.inserted[p.history.origin[id]] == p.store.pending[id]
  }

  /** No inserted row is accounted for twice. */
  ghost predicate OriginsDistinct(h: History) {
    && (forall id, id' :: id in h.origin && id' in h.origin && id != id' ==> h.origin[id] != h.origin[id'])
    && (forall i, j :: 0 <= i < j < |h.applied| ==> h.applied[i].origin != h.applied[j].origin)
    && (forall i, j :: 0 <= i < j < |h.discarded| ==> h.discarded[i] != h.discarded[j])
    && (forall id, i :: id in h.origin && 0 <= i < |h.applied| ==> h.origin[id] != h.applied[i].origin)
    && (forall id, i :: id in h.origin && 0 <= i < |h.discarded| ==> h.origin[id] != h.discarded[i])
    && (forall i, j :: 0 <= i < |h.applied| && 0 <= j < |h.discarded| ==> h.applied[i].origin != h.discarded[j])
  }

  ghost predicate OriginsInRange(h: History) {
    && (forall id :: id in h.origin ==> h.origin[id] < |h.inserted|)
    && (forall i :: 0 <= i < |h.applied| ==> h.applied[i].origin < |h.inserted|)
    && (forall i :: 0 <= i < |h.discarded| ==> h.discarded[i] < |h.inserted|)
  }

  /** No inserted row is lost: it is pending, or it was applied, or it was discarded. */
  ghost predicate Held(h: History, n: nat) {
    || (exists id :: id in h.origin && h.origin[id] == n)
    || (exists i :: 0 <= i < |h.applied| && h.applied[i].origin == n)
    || (exists i :: 0 <= i < |h.discarded| && h.discarded[i] == n)
  }

  ghost predicate AllHeld(h: History) {
    forall n :: 0 <= n < |h.inserted| ==> Held(h, n)
  }

  ghost predicate AllTraced(config: ProviderConfig, h: History) {
    forall i :: 0 <= i < |h.applied| ==> Provenance(config, h.inserted, h.applied[i])
  }

  /** The override table is what the applications left. */
  ghost predicate TableTraced(p: Protocol) {
    forall k :: LastApplied(p.history.applied, k) == if k in p.store.overrides then Some(p.store.overrides[k]) else None
  }

  ghost predicate Accounted(config: ProviderConfig, p: Protocol) {
    && RowsWellFormed(config, p.history.inserted)
    && PendingTraced(p)
    && OriginsInRange(p.history) && OriginsDistinct(p.history) && AllHeld(p.history)
    && |p.history.inserted| == |p.store.pending| + |p.history.applied| + |p.history.discarded|
    && AllTraced(config, p.history)
    && TableTraced(p)
  }

  // The three things a command can do to the tables and their history.

  function WithPending(p: Protocol, id: string, row: PendingRow): Protocol {
    Protocol(p.store.(pending := p.store.pending[id := row]),
             p.history.(inserted := p.history.inserted + [row], origin := p.history.origin[id := |p.history.inserted|]))
  }

  function WithDiscarded(p: Protocol, id: string): Protocol {
    Protocol(p.store.(pending := p.store.pending - {id}),
             p.history.(origin := p.history.origin - {id}, discarded := p.history.discarded + [OriginOf(p, id)]))
  }

  function WithApplied(p: Protocol, id: string, r: SetRequest, user: int, at: int): Protocol {
    Protocol(Store(p.store.overrides[(r.moduleID, r.key) := OverrideRow(r.value, user, at)], p.store.pending - {id}),
             p.history.(origin := p.history.origin - {id},
                        applied := p.history.applied + [Applied(OriginOf(p, id), |p.history.inserted|,
                                                                 r.moduleID, r.key, r.value, user, at)]))
  }

  lemma AddedKey<V>(m: map<string, V>, id: string, v: V)
    requires id !in m
    ensures |m[id := v]| == |m| + 1
  {
    assert m[id := v].Keys == m.Keys + {id};
    assert |m[id := v].Keys| == |m[id := v]| && |m.Keys| == |m|;
  }

  lemma RemovedKey<V>(m: map<string, V>, id: string)
    requires id in m
    ensures |m - {id}| == |m| - 1
  {
    assert (m - {id}).Keys == m.Keys - {id};
    assert |(m - {id}).Keys| == |m - {id}| && |m.Keys| == |m|;
  }

  lemma StillHeldElsewhere(h: History, h': History, n: nat)
    requires Held(h, n) && h.applied == h'.applied && h.discarded == h'.discarded
    requires forall id :: id in h.origin ==> id in h'.origin && h'.origin[id] == h.origin[id]
    ensures Held(h', n)
  {
    if id :| id in h.origin && h.origin[id] == n {
      assert id in h'.origin && h'.origin[id] == n;
    }
  }

  lemma HeldAfterInsert(h: History, id: string, row: PendingRow)
    requires AllHeld(h) && id !in h.origin
    ensures AllHeld(h.(inserted := h.inserted + [row], origin := h.origin[id := |h.inserted|]))
  {
    var h' := h.(inserted := h.inserted + [row], origin := h.origin[id := |h.inserted|]);
    assert id in h'.origin && h'.origin[id] == |h.inserted|;
    forall n | 0 <= n < |h'.inserted| ensures Held(h', n) {
      if n < |h.inserted| {
        StillHeldElsewhere(h, h', n);
      }
    }
  }

  lemma HeldAfterDiscard(h: History, id: string)
    requires AllHeld(h) && id in h.origin
    ensures AllHeld(h.(origin := h.origin - {id}, discarded := h.discarded + [h.origin[id]]))
  {
    var h' := h.(origin := h.origin - {id}, discarded := h.discarded + [h.origin[id]]);
    assert h'.discarded[|h.discarded|] == h.origin[id];
    forall n | 0 <= n < |h'.inserted| ensures Held(h', n) {
      StillHeld(h, h', id, n);
    }
  }

  lemma HeldAfterApply(h: History, id: string, a: Applied)
    requires AllHeld(h) && id in h.origin && a.origin == h.origin[id]
    ensures AllHeld(h.(origin := h.origin - {id}, applied := h.applied + [a]))
  {
    var h' := h.(origin := h.origin - {id}, applied := h.applied + [a]);
    assert h'.applied[|h.applied|].origin == h.origin[id];
    forall n | 0 <= n < |h'.inserted| ensures Held(h', n) {
      StillHeld(h, h', id, n);
    }
  }

  lemma StillHeld(h: History, h': History, id: string, n: nat)
    requires Held(h, n) && id in h.origin && h'.origin == h.origin - {id}
    requires h.applied <= h'.applied && h.discarded <= h'.discarded
    requires (exists i :: 0 <= i < |h'.applied| && h'.applied[i].origin == h.origin[id])
          || (exists i :: 0 <= i < |h'.discarded| && h'.discarded[i] == h.origin[id])
    ensures Held(h', n)
  {
    if other :| other in h.origin && h.origin[other] == n {
      assert other != id ==> other in h'.origin && h'.origin[other] == n;
    } else if i :| 0 <= i < |h.applied| && h.applied[i].origin == n {
      assert h'.applied[i].origin == n;
    } else {
      var i :| 0 <= i < |h.discarded| && h.discarded[i] == n;
      assert h'.discarded[i] == n;
    }
  }

  lemma DistinctAfterInsert(h: History, id: string, row: PendingRow)
    requires OriginsDistinct(h) && OriginsInRange(h)
    ensures var h' := h.(inserted := h.inserted + [row], origin := h.origin[id := |h.inserted|]);
            OriginsDistinct(h') && OriginsInRange(h')
  {
  }

  lemma DistinctAfterDiscard(h: History, id: string)
    requires OriginsDistinct(h) && OriginsInRange(h) && id in h.origin
    ensures var h' := h.(origin := h.origin - {id}, discarded := h.discarded + [h.origin[id]]);
            OriginsDistinct(h') && OriginsInRange(h')
  {
  }

  lemma DistinctAfterApply(h: History, id: string, a: Applied)
    requires OriginsDistinct(h) && OriginsInRange(h) && id in h.origin && a.origin == h.origin[id]
    ensures var h' := h.(origin := h.origin - {id}, applied := h.applied + [a]);
            OriginsDistinct(h') && OriginsInRange(h')
  {
  }

  lemma PendingTracedAfterInsert(p: Protocol, id: string, row: PendingRow)
    requires PendingTraced(p)
    ensures PendingTraced(WithPending(p, id, row))
  {
  }

  lemma AllTracedAfterInsert(config: ProviderConfig, h: History, h': History, row: PendingRow)
    requires AllTraced(config, h) && h'.inserted == h.inserted + [row] && h'.applied == h.applied
    ensures AllTraced(config, h')
  {
    forall i | 0 <= i < |h'.applied| ensures Provenance(config, h'.inserted, h'.applied[i]) {
      assert Provenance(config, h.inserted, h.applied[i]);
    }
  }

  lemma WithPendingAccounted(config: ProviderConfig, p: Protocol, id: string, row: PendingRow)
    requires Accounted(config, p) && id !in p.store.pending && RowWellFormed(config, row)
    ensures Accounted(config, WithPending(p, id, row))
  {
    AddedKey(p.store.pending, id, row);
    DistinctAfterInsert(p.history, id, row);
    HeldAfterInsert(p.history, id, row);
    PendingTracedAfterInsert(p, id, row);
    AllTracedAfterInsert(config, p.history, WithPending(p, id, row).history, row);
  }

  lemma WithDiscardedAccounted(config: ProviderConfig, p: Protocol, id: string)
    requires Accounted(config, p) && id in p.store.pending
    ensures Accounted(config, WithDiscarded(p, id))
  {
    RemovedKey(p.store.pending, id);
    DistinctAfterDiscard(p.history, id);
    HeldAfterDiscard(p.history, id);
  }

  lemma WithAppliedAccounted(config: ProviderConfig, p: Protocol, id: string, at: int)
    requires Accounted(config, p) && id in p.store.pending && at < p.store.pending[id].expiresAt
    ensures Accounted(config, WithApplied(p, id, p.store.pending[id].request, p.store.pending[id].requestedBy, at))
  {
    var row := p.store.pending[id];
    var next := WithApplied(p, id, row.request, row.requestedBy, at);
    var a := next.history.applied[|p.history.applied|];
    RemovedKey(p.store.pending, id);
    DistinctAfterApply(p.history, id, a);
    HeldAfterApply(p.history, id, a);
    assert RowWellFormed(config, row);
    assert Provenance(config, p.history.inserted, a);
    assert next.history.applied[..|p.history.applied|] == p.history.applied;
  }

  lemma SetIsOneOfThese(config: ProviderConfig, p: Protocol, c: Command)
    requires c.Set?
    ensures var next := Execute(config, p, c).next;
            || next == p
            || exists id, row :: id !in p.store.pending && RowWellFormed(config, row) && next == WithPending(p, id, row)
  {
    var next := Execute(config, p, c).next;
    if next != p {
      var row := PendingRow(THRESHOLD_KIND, c.request, c.request.userID, c.now + TTL(config), c.now);
      var id := BuildThresholdConfirmation(c.request).value.id;
      assert id !in p.store.pending && RowWellFormed(config, row) && next == WithPending(p, id, row);
    }
  }

  lemma ConfirmIsOneOfThese(config: ProviderConfig, p: Protocol, c: Command)
    requires c.Confirm?
    ensures var next := Execute(config, p, c).next;
            || next == p
            || (c.id in p.store.pending
                && (|| next == WithDiscarded(p, c.id)
                    || (&& c.now < p.store.pending[c.id].expiresAt
                        && next == WithApplied(p, c.id, p.store.pending[c.id].request,
                                               p.store.pending[c.id].requestedBy, c.now))))
  {
  }

  lemma ExecuteKeepsAccounted(config: ProviderConfig, p: Protocol, c: Command)
    requires Accounted(config, p)
    ensures Accounted(config, Execute(config, p, c).next)
  {
    var next := Execute(config, p, c).next;
    if next != p {
      match c
      case Set(_, _, _) =>
        SetIsOneOfThese(config, p, c);
        var id, row :| id !in p.store.pending && RowWellFormed(config, row) && next == WithPending(p, id, row);
        WithPendingAccounted(config, p, id, row);
      case Confirm(_, id, now, _) =>
        ConfirmIsOneOfThese(config, p, c);
        if next == WithDiscarded(p, id) {
          WithDiscardedAccounted(config, p, id);
        } else {
          WithAppliedAccounted(config, p, id, now);
        }
    }
  }

  lemma {:induction false} ReachableIsAccounted(config: ProviderConfig, commands: seq<Command>)
    ensures Accounted(config, After(config, commands))
  {
    if commands != [] {
      ReachableIsAccounted(config, commands[..|commands| - 1]);
      ExecuteKeepsAccounted(config, After(config, commands[..|commands| - 1]), commands[|commands| - 1]);
    }
  }

  /** In every run, insertions = still pending + applied + discarded, every inserted row is in
      exactly one of the three places, and every application goes back to its own request. */
  lemma ConfirmationsAreConserved(config: ProviderConfig, commands: seq<Command>)
    ensures var p := After(config, commands);
            && |p.history.inserted| == |p.store.pending| + |p.history.applied| + |p.history.discarded|
            && (forall n :: 0 <= n < |p.history.inserted| ==> Held(p.history, n))
            && OriginsDistinct(p.history)
            && AllTraced(config, p.history)
  {
    ReachableIsAccounted(config, commands);
  }

  /** Every stored override was applied from a request of its own, made by the user it names for
      the same module, key and value, and confirmed before that request expired. */
  lemma EveryOverrideHasItsRequest(config: ProviderConfig, commands: seq<Command>, k: (string, string))
    requires k in After(config, commands).store.overrides
    ensures var p := After(config, commands);
            exists i :: 0 <= i < |p.history.applied|
                     && var a := p.history.applied[i];
                        && (a.moduleID, a.key) == k
                        && p.store.overrides[k] == OverrideRow(a.value, a.user, a.at)
                        && Provenance(config, p.history.inserted, a)
                        && forall j :: 0 <= j < |p.history.applied| && j != i ==>
                             p.history.applied[j].origin != a.origin
  {
    ReachableIsAccounted(config, commands);
    var p := After(config, commands);
    var i := LastAppliedIndex(p.history.applied, k);
    assert Provenance(config, p.history.inserted, p.history.applied[i]);
  }

  lemma {:induction false} LastAppliedIndex(applied: seq<Applied>, k: (string, string)) returns (i: nat)
    requires LastApplied(applied, k).Some?
    ensures i < |applied| && (applied[i].moduleID, applied[i].key) == k
    ensures LastApplied(applied, k) == Some(OverrideRow(applied[i].value, applied[i].user, applied[i].at))
  {
    var a := applied[|applied| - 1];
    if (a.moduleID, a.key) == k {
      i := |applied| - 1;
    } else {
      i := LastAppliedIndex(applied[..|applied| - 1], k);
    }
  }

  /** Somebody else's confirm changes nothing at all. */
  lemma WrongUserChangesNothing(config: ProviderConfig, p: Protocol, user: int, id: string, now: int, faults: Faults)
    requires id in p.store.pending && p.store.pending[id].requestedBy != user
    ensures ConfirmStep(config, p, user, id, now, faults).next == p
    ensures ConfirmStep(config, p, user, id, now, faults).error.Some?
  {
  }

  /** A command of somebody else's: it does not confirm id, or not as the requester. */
  predicate Foreign(c: Command, id: string, requester: int) {
    c.Confirm? && c.id == id ==> c.user != requester
  }

  /** Whatever else happens, for however long, only its requester's confirm takes a pending
      confirmation away; no set replaces it either. */
  lemma {:induction false} OnlyTheRequesterConsumes(config: ProviderConfig, commands: seq<Command>, more: seq<Command>,
                                                    id: string)
    requires id in After(config, commands).store.pending
    requires forall c :: c in more ==> Foreign(c, id, After(config, commands).store.pending[id].requestedBy)
    ensures id in After(config, commands + more).store.pending
    ensures After(config, commands + more).store.pending[id] == After(config, commands).store.pending[id]
    decreases |more|
  {
    if more == [] {
      assert commands + more == commands;
    } else {
      var n := |more| - 1;
      assert forall c :: c in more[..n] ==> c in more;
      OnlyTheRequesterConsumes(config, commands, more[..n], id);
      AfterOneMore(config, commands, more);
      ForeignKeeps(config, After(config, commands + more[..n]), more[n], id);
    }
  }

  lemma AfterOneMore(config: ProviderConfig, commands: seq<Command>, more: seq<Command>)
    requires more != []
    ensures After(config, commands + more)
         == Execute(config, After(config, commands + more[..|more| - 1]), more[|more| - 1]).next
  {
    assert (commands + more)[..|commands + more| - 1] == commands + more[..|more| - 1];
  }

  lemma ForeignKeeps(config: ProviderConfig, p: Protocol, c: Command, id: string)
    requires id in p.store.pending && Foreign(c, id, p.store.pending[id].requestedBy)
    ensures var next := Execute(config, p, c).next.store; id in next.pending && next.pending[id] == p.store.pending[id]
  {
    if c.Set? {
      SetIsOneOfThese(config, p, c);
    } else {
      ConfirmIsOneOfThese(config, p, c);
      if c.id == id {
        WrongUserChangesNothing(config, p, c.user, id, c.now, c.faults);
      }
    }
  }

  /** A confirm by the requester consumes the confirmation unless the database refuses, and
      applies it exactly when it comes in time, is still acceptable, and can be stored. */
  lemma ConfirmAppliesExactlyWhen(config: ProviderConfig, commands: seq<Command>, id: string, now: int, faults: Faults)
    requires id in After(config, commands).store.pending && !faults.lookup && !faults.remove
    ensures var p := After(config, commands);
            var row := p.store.pending[id];
            var next := ConfirmStep(config, p, row.requestedBy, id, now, faults).next;
            && id !in next.store.pending
            && (now < row.createdAt + TTL(config) && !faults.list && AcceptableNow(config, p.store, row.request)
                && !faults.upsert
                <==> |next.history.applied| == |p.history.applied| + 1)
            && (now >= row.createdAt + TTL(config) ==> next.store.overrides == p.store.overrides)
  {
    ReachableIsAccounted(config, commands);
    var p := After(config, commands);
    assert RowWellFormed(config, p.store.pending[id]);
  }

  /** The two phases together: an acceptable change, requested and confirmed in time by one
      user with nothing in between, ends up in the table. */
  lemma SetThenConfirmApplies(config: ProviderConfig, p: Protocol, request: SetRequest, now: int, later: int,
                              faults: Faults)
    requires Allowed(request.moduleID, request.key) && AcceptableNow(config, p.store, request)
    requires BuildThresholdConfirmation(request).value.id !in p.store.pending
    requires later < now + TTL(config)
    requires !faults.list && !faults.insert && !faults.lookup && !faults.remove && !faults.upsert
    ensures var id := BuildThresholdConfirmation(request).value.id;
            var requested := SetStep(config, p, request, now, faults);
            var confirmed := ConfirmStep(config, requested.next, request.userID, id, later, faults);
            && requested.error.None?
            && confirmed.next.store.pending == p.store.pending
            && confirmed.next.store.overrides
               == p.store.overrides[
                    (request.moduleID, request.key) := OverrideRow(request.value, request.userID, later)]
  {
    var id := BuildThresholdConfirmation(request).value.id;
    var requested := SetStep(config, p, request, now, faults).next;
    assert requested.store.pending - {id} == p.store.pending;
  }
}
