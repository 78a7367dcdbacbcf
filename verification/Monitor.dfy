/** The monitor service (internal/monitor/service.go): one pass over the modules, the latest
    results it keeps, and the loop that repeats the pass. */
module Monitor {
  import opened Wrappers
  import opened Core
  import opened Clone

  const MODULE_ID_EVIDENCE_KEY := "module_id"

  /** The sentinels that a joined error can be asked for; the empty set is no error. */
  datatype ErrorKind = InvalidModule | ModuleFailure | HandlerFailure | StorageFailure

  /** A registered module with its answer in this pass: a result, or the text of an error. */
  datatype Module<R> = NilModule | Module(id: string, valid: bool, run: Result<R, string>)

  /** A module's turn: the clock when it fails, the clock when its result is stored, and
      whether the repository takes the row. */
  datatype Turn<R> = Turn(mod: Module<R>, failedAt: int, storedAt: int, stored: bool)

  datatype Tick<R> = Tick(turns: seq<Turn<R>>, handlerOK: bool)

  datatype Row = Row(result: MonitorResult, at: int)

  datatype LoopError = IntervalNotPositive | ContextDone | Fatal(errors: set<ErrorKind>)

  // ----- what one pass should do -----

  predicate Invalid<R>(m: Module<R>) {
    m.NilModule? || m.id == "" || !m.valid
  }

  /** How many turns come before the first invalid module. */
  function ValidPrefix<R>(turns: seq<Turn<R>>): (k: nat)
    ensures k <= |turns|
    ensures forall i :: 0 <= i < k ==> turns[i].mod.Module? && turns[i].mod.id != "" && turns[i].mod.valid
    ensures k < |turns| ==> turns[k].mod.NilModule? || turns[k].mod.id == "" || !turns[k].mod.valid
  {
    if turns == [] || Invalid(turns[0].mod) then 0 else 1 + ValidPrefix(turns[1..])
  }

  predicate AnyFailed<R>(turns: seq<Turn<R>>) {
    exists i :: 0 <= i < |turns| && turns[i].mod.Module? && turns[i].mod.run.Failure?
  }

  predicate AnyUnstored<R>(turns: seq<Turn<R>>) {
    exists i :: 0 <= i < |turns| && !turns[i].stored
  }

  /** What a module contributes: its own result under its own id, or a warning that it failed. */
  function ResultOf(turn: Turn<MonitorResult>): MonitorResult
    requires !Invalid(turn.mod)
  {
    var id := turn.mod.id;
    match turn.mod.run
    case Success(result) => result.(moduleID := id)
    case Failure(text) =>
      MonitorResult(id, UNKNOWN, turn.failedAt, [],
                    [Finding(FINDING_STALE_DATA, Warn, "module " + id + " failed: " + text,
                             map[MODULE_ID_EVIDENCE_KEY := Word(id)])])
  }

  /** The rows for the results of the first |results| turns. */
  function RowsOf(turns: seq<Turn<MonitorResult>>, results: seq<MonitorResult>): seq<Row>
    requires |results| <= |turns|
  {
    if results == [] then []
    else (if turns[0].stored then [Row(results[0], turns[0].storedAt)] else []) + RowsOf(turns[1..], results[1..])
  }

  /** The table of latest results, overridden by a list of results from left to right. */
  function Overridden(latest: map<string, MonitorResult>, results: seq<MonitorResult>): map<string, MonitorResult>
    decreases |results|
  {
    if results == [] then latest else Overridden(latest[results[0].moduleID := results[0]], results[1..])
  }

  function TurnErrors<R>(turn: Turn<R>): set<ErrorKind>
    requires !Invalid(turn.mod)
  {
    (if turn.mod.run.Failure? then {ModuleFailure} else {}) + (if turn.stored then {} else {StorageFailure})
  }

  predicate IsRecoverable(errors: set<ErrorKind>) {
    if InvalidModule in errors || StorageFailure in errors then false
    else ModuleFailure in errors || HandlerFailure in errors
  }

  predicate ShouldHandle(errors: set<ErrorKind>) {
    InvalidModule !in errors && StorageFailure !in errors
  }

  /** A pass that must end the loop: an invalid module, or a row that could not be stored. */
  predicate FatalTick<R>(tick: Tick<R>) {
    var k := ValidPrefix(tick.turns);
    k < |tick.turns| || AnyUnstored(tick.turns[..k])
  }

  // ----- one pass, turn by turn -----

  /** The table of latest results, and all it has ever been while the lock was free: whatever
      a snapshot can have seen. */
  datatype Latest = Latest(table: map<string, MonitorResult>, seen: seq<map<string, MonitorResult>>)

  /** The last of the tables is the present one. */
  predicate Current(latest: Latest) {
    latest.seen != [] && latest.seen[|latest.seen| - 1] == latest.table
  }

  function Updated(latest: Latest, id: string, result: MonitorResult): Latest {
    Latest(latest.table[id := result], latest.seen + [latest.table[id := result]])
  }

  /** What a pass has produced and changed so far. */
  datatype Progress = Progress(results: seq<MonitorResult>, latest: Latest, rows: seq<Row>, errors: set<ErrorKind>)

  function TakeTurn(p: Progress, turn: Turn<MonitorResult>): Progress
    requires !Invalid(turn.mod)
  {
    var said := ResultOf(turn);
    Progress(p.results + [said],
             Updated(p.latest, turn.mod.id, said),
             p.rows + (if turn.stored then [Row(said, turn.storedAt)] else []),
             p.errors + TurnErrors(turn))
  }

  function Pass(p: Progress, turns: seq<Turn<MonitorResult>>): Progress
    decreases |turns|
  {
    if turns == [] then p
    else if Invalid(turns[0].mod) then p.(errors := p.errors + {InvalidModule})
    else Pass(TakeTurn(p, turns[0]), turns[1..])
  }

  /** What the service keeps between passes. */
  datatype Kept = Kept(latest: Latest, rows: seq<Row>, handled: seq<seq<MonitorResult>>)

  datatype Once = Once(results: seq<MonitorResult>, errors: set<ErrorKind>, kept: Kept)

  function RunOnceOn(hasHandler: bool, kept: Kept, tick: Tick<MonitorResult>): Once {
    var p := Pass(Progress([], kept.latest, kept.rows, {}), tick.turns);
    if hasHandler && ShouldHandle(p.errors)
    then Once(p.results, if tick.handlerOK then p.errors else p.errors + {HandlerFailure},
              Kept(p.latest, p.rows, kept.handled + [p.results]))
    else Once(p.results, p.errors, Kept(p.latest, p.rows, kept.handled))
  }

  /** A pass over each tick in turn, until one fails for good or the ticks end. */
  function LoopOn(hasHandler: bool, kept: Kept, ticks: seq<Tick<MonitorResult>>): (Kept, LoopError)
    decreases |ticks|
  {
    if ticks == [] then (kept, ContextDone)
    else
      var once := RunOnceOn(hasHandler, kept, ticks[0]);
      if once.errors != {} && !IsRecoverable(once.errors) then (once.kept, Fatal(once.errors))
      else LoopOn(hasHandler, once.kept, ticks[1..])
  }

  // ----- the values behind references -----

  ghost predicate TurnWithin(turn: Turn<ResultRef>, world: set<object>)
    reads world
  {
    turn.mod.Module? && turn.mod.run.Success? ==> Within(turn.mod.run.value, world)
  }

  ghost function TurnValue(turn: Turn<ResultRef>, world: set<object>): Turn<MonitorResult>
    requires TurnWithin(turn, world)
    reads world
  {
    Turn(match turn.mod
         case NilModule => NilModule
         case Module(id, valid, Failure(text)) => Module(id, valid, Failure(text))
         case Module(id, valid, Success(r)) => Module(id, valid, Success(Value(r, world))),
         turn.failedAt, turn.storedAt, turn.stored)
  }

  ghost predicate TurnsWithin(turns: seq<Turn<ResultRef>>, world: set<object>)
    reads world
  {
    forall i :: 0 <= i < |turns| ==> TurnWithin(turns[i], world)
  }

  ghost function TurnValues(turns: seq<Turn<ResultRef>>, world: set<object>): (values: seq<Turn<MonitorResult>>)
    requires TurnsWithin(turns, world)
    reads world
    ensures |values| == |turns|
    ensures forall i :: 0 <= i < |turns| ==> values[i] == TurnValue(turns[i], world)
  {
    seq(|turns|, i requires 0 <= i < |turns| && TurnWithin(turns[i], world) reads world => TurnValue(turns[i], world))
  }

  ghost predicate TicksWithin(ticks: seq<Tick<ResultRef>>, world: set<object>)
    reads world
  {
    forall i :: 0 <= i < |ticks| ==> TurnsWithin(ticks[i].turns, world)
  }

  ghost function TickValue(tick: Tick<ResultRef>, world: set<object>): Tick<MonitorResult>
    requires TurnsWithin(tick.turns, world)
    reads world
  {
    Tick(TurnValues(tick.turns, world), tick.handlerOK)
  }

  ghost function TickValues(ticks: seq<Tick<ResultRef>>, world: set<object>): (values: seq<Tick<MonitorResult>>)
    requires TicksWithin(ticks, world)
    reads world
    ensures |values| == |ticks|
    ensures forall i :: 0 <= i < |ticks| ==> values[i] == TickValue(ticks[i], world)
  {
    seq(|ticks|, i requires 0 <= i < |ticks| && TurnsWithin(ticks[i].turns, world) reads world =>
                   TickValue(ticks[i], world))
  }

  ghost predicate TableWithin(table: map<string, ResultRef>, reach: set<object>)
    reads reach
  {
    forall id :: id in table ==> Within(table[id], reach) && table[id].moduleID == id
  }

  ghost function TableValues(table: map<string, ResultRef>, reach: set<object>): map<string, MonitorResult>
    requires TableWithin(table, reach)
    reads reach
  {
    map id | id in table :: Value(table[id], reach)
  }

  lemma TableUpdated(table: map<string, ResultRef>, small: set<object>, copy: ResultRef, owned: set<object>)
    requires TableWithin(table, small) && Within(copy, owned)
    ensures TableWithin(table[copy.moduleID := copy], small + owned)
    ensures TableValues(table[copy.moduleID := copy], small + owned)
         == TableValues(table, small)[copy.moduleID := Value(copy, owned)]
  {
    ReachIsImmaterial(copy, owned, small + owned);
    forall id | id in table
      ensures Within(table[id], small + owned) && Value(table[id], small + owned) == Value(table[id], small)
    {
      ReachIsImmaterial(table[id], small, small + owned);
    }
  }

  lemma RestoredOne<K, V>(m: map<K, V>, keys: set<K>, key: K)
    requires key in keys && keys <= m.Keys
    ensures (m - keys)[key := m[key]] == m - (keys - {key})
  {
  }

  // ----- the service -----

  class Service {
    const hasHandler: bool
    var latest: map<string, ResultRef>
    /** The memory behind latest. */
    ghost var reach: set<object>
    /** Every table that latest has stood for, the present one last. */
    ghost var seen: seq<map<string, MonitorResult>>
    /** The repository's rows, in insertion order, and the lists the handler was given. */
    ghost var rows: seq<Row>
    ghost var handled: seq<seq<MonitorResult>>

    ghost predicate Valid()
      reads this, reach
    {
      this !in reach && TableWithin(latest, reach)
    }

    ghost function LatestValues(): Latest
      requires Valid()
      reads this, reach
    {
      Latest(TableValues(latest, reach), seen)
    }

    constructor (hasHandler: bool)
      ensures this.hasHandler == hasHandler
      ensures Valid() && reach == {} && LatestValues() == Latest(map[], [map[]]) && rows == [] && handled == []
    {
      this.hasHandler := hasHandler;
      latest, reach, seen, rows, handled := map[], {}, [map[]], [], [];
    }

    /** The repository gets a copy of its own and may do with it what it likes. */
    method InsertMonitorResult(copy: ResultRef, ghost owned: set<object>, at: int, answer: bool) returns (ok: bool)
      requires Within(copy, owned) && this !in owned
      modifies this`rows, owned
      ensures ok == answer
      ensures rows == if ok then old(rows) + [Row(old(Value(copy, owned)), at)] else old(rows)
    {
      ok := answer;
      if ok {
        rows := rows + [Row(Value(copy, owned), at)];
      }
    }

    /** So may the handler. */
    method HandleMonitorResults(copies: seq<ResultRef>, ghost owned: set<object>, answer: bool) returns (ok: bool)
      requires AllWithin(copies, owned) && this !in owned
      modifies this`handled, owned
      ensures ok == answer
      ensures handled == old(handled) + [old(Values(copies, owned))]
    {
      ok := answer;
      handled := handled + [Values(copies, owned)];
    }

    method Remember(copy: ResultRef, ghost owned: set<object>)
      requires Valid() && Within(copy, owned) && this !in owned
      modifies this`latest, this`reach, this`seen
      ensures Valid() && reach == old(reach) + owned
      ensures LatestValues() == Updated(old(LatestValues()), copy.moduleID, old(Value(copy, owned)))
    {
      TableUpdated(latest, reach, copy, owned);
      ghost var after := TableValues(latest, reach)[copy.moduleID := Value(copy, owned)];
      latest := latest[copy.moduleID := copy];
      reach, seen := reach + owned, seen + [after];
    }

    /** The module's result, or the warning that stands for it, under the module's id. */
    static method Observe(turn: Turn<ResultRef>, ghost world: set<object>)
      returns (result: ResultRef, ghost view: set<object>)
      requires TurnWithin(turn, world) && !Invalid(turn.mod)
      ensures world <= view && fresh(view - world) && Within(result, view)
      ensures Value(result, view) == ResultOf(TurnValue(turn, world))
    {
      var id := turn.mod.id;
      match turn.mod.run {
        case Success(answer) =>
          return answer.(moduleID := id), world;
        case Failure(text) =>
          var evidence := new EvidenceMap();
          evidence.entries := map[MODULE_ID_EVIDENCE_KEY := Word(id)];
          var finding := FindingRef(FINDING_STALE_DATA, Warn, "module " + id + " failed: " + text, evidence);
          var findings := new FindingRef[] [finding];
          result := ResultRef(id, UNKNOWN, turn.failedAt, null, findings);
          view := world + {evidence, findings};
          assert FindingValues(findings[..], view) == [FindingValue(finding, view)];
      }
    }

    static method ObserveClone(turn: Turn<ResultRef>, ghost world: set<object>)
      returns (copy: ResultRef, ghost owned: set<object>)
      requires TurnWithin(turn, world) && !Invalid(turn.mod)
      ensures fresh(owned) && Within(copy, owned)
      ensures Value(copy, owned) == ResultOf(TurnValue(turn, world))
    {
      var result, view := Observe(turn, world);
      copy, owned := CloneResult(result, view);
    }

    method StoreClone(result: ResultRef, ghost own: set<object>, at: int, answer: bool) returns (ok: bool)
      requires Within(result, own) && this !in own
      modifies this`rows
      ensures ok == answer
      ensures rows == if ok then old(rows) + [Row(old(Value(result, own)), at)] else old(rows)
    {
      var copy, owned := CloneResult(result, own);
      ok := InsertMonitorResult(copy, owned, at, answer);
    }

    /** The body of the loop over the modules. */
    method RunModule(turn: Turn<ResultRef>, ghost world: set<object>)
      returns (copy: ResultRef, ghost owned: set<object>, errors: set<ErrorKind>)
      requires Valid() && this !in world && TurnWithin(turn, world) && !Invalid(turn.mod)
      modifies this`latest, this`reach, this`seen, this`rows
      ensures Valid() && old(reach) <= reach && fresh(reach - old(reach))
      ensures fresh(owned) && owned !! reach && Within(copy, owned)
      ensures Value(copy, owned) == old(ResultOf(TurnValue(turn, world)))
      ensures LatestValues() == old(Updated(LatestValues(), turn.mod.id, ResultOf(TurnValue(turn, world))))
      ensures rows
              == old(rows) + old(if turn.stored then [Row(ResultOf(TurnValue(turn, world)), turn.storedAt)] else [])
      ensures errors == TurnErrors(turn)
    {
      var resultClone, own := ObserveClone(turn, world);
      Remember(resultClone, own);
      errors := if turn.mod.run.Failure? then {ModuleFailure} else {};
      var stored := StoreClone(resultClone, own, turn.storedAt, turn.stored);
      if !stored {
        errors := errors + {StorageFailure};
      }
      copy, owned := CloneResult(resultClone, own);
    }

    method HandOver(results: seq<ResultRef>, ghost owned: set<object>, answer: bool) returns (ok: bool)
      requires AllWithin(results, owned) && this !in owned
      modifies this`handled
      ensures ok == answer
      ensures handled == old(handled) + [old(Values(results, owned))]
    {
      var copies, private := CloneResults(results, owned);
      ok := HandleMonitorResults(copies, private, answer);
    }

    ghost function ProgressSoFar(results: seq<ResultRef>, owned: set<object>, errors: set<ErrorKind>): Progress
      requires Valid() && AllWithin(results, owned)
      reads this, reach, owned
    {
      Progress(Values(results, owned), LatestValues(), rows, errors)
    }

    method NextModule(results: seq<ResultRef>, ghost owned: set<object>, errors: set<ErrorKind>,
                      turn: Turn<ResultRef>, ghost world: set<object>)
      returns (more: seq<ResultRef>, ghost after: set<object>, joined: set<ErrorKind>)
      requires Valid() && this !in world && TurnWithin(turn, world) && !Invalid(turn.mod)
      requires AllWithin(results, owned) && owned !! reach && this !in owned
      modifies this`latest, this`reach, this`seen, this`rows
      ensures Valid() && old(reach) <= reach && fresh(reach - old(reach))
      ensures owned <= after && fresh(after - owned) && after !! reach && AllWithin(more, after)
      ensures ProgressSoFar(more, after, joined)
              == old(TakeTurn(ProgressSoFar(results, owned, errors), TurnValue(turn, world)))
    {
      var copy, private, failures := RunModule(turn, world);
      after := owned + private;
      ReachIsImmaterial(copy, private, after);
      AppendValue(results, owned, copy, after);
      more, joined := results + [copy], errors + failures;
    }

    /** The loop: the modules before the first invalid one, in order. */
    method RunModules(turns: seq<Turn<ResultRef>>, ghost world: set<object>)
      returns (results: seq<ResultRef>, ghost owned: set<object>, errors: set<ErrorKind>)
      requires Valid() && this !in world && TurnsWithin(turns, world)
      modifies this`latest, this`reach, this`seen, this`rows
      ensures Valid() && old(reach) <= reach && fresh(reach - old(reach))
      ensures fresh(owned) && owned !! reach && AllWithin(results, owned)
      ensures ProgressSoFar(results, owned, errors) == old(Pass(ProgressSoFar([], {}, {}), TurnValues(turns, world)))
    {
      ghost var said := TurnValues(turns, world);
      ghost var start := ProgressSoFar([], {}, {});
      results, owned, errors := [], {}, {};
      for i := 0 to |turns|
        invariant TurnsWithin(turns, world) && TurnValues(turns, world) == said
        invariant Valid() && old(reach) <= reach && fresh(reach - old(reach))
        invariant fresh(owned) && owned !! reach && AllWithin(results, owned)
        invariant Pass(start, said) == Pass(ProgressSoFar(results, owned, errors), said[i..])
      {
        if Invalid(turns[i].mod) {
          errors := errors + {InvalidModule};
          return;
        }
        results, owned, errors := NextModule(results, owned, errors, turns[i], world);
        assert said[i..][1..] == said[i + 1..];
      }
    }

    ghost function View(): Kept
      requires Valid()
      reads this, reach
    {
      Kept(LatestValues(), rows, handled)
    }

    /** The results that come back share no memory with the ones that are kept. */
    method RunOnce(tick: Tick<ResultRef>, ghost world: set<object>)
      returns (results: seq<ResultRef>, errors: set<ErrorKind>, ghost owned: set<object>)
      requires Valid() && this !in world && TurnsWithin(tick.turns, world)
      modifies this
      ensures Valid() && old(reach) <= reach && fresh(reach - old(reach))
      ensures fresh(owned) && owned !! reach && AllWithin(results, owned)
      ensures Once(Values(results, owned), errors, View()) == old(RunOnceOn(hasHandler, View(), TickValue(tick, world)))
    {
      results, owned, errors := RunModules(tick.turns, world);
      if hasHandler && ShouldHandle(errors) {
        var ok := HandOver(results, owned, tick.handlerOK);
        if !ok {
          errors := errors + {HandlerFailure};
        }
      }
    }

    static method AddClone(copies: map<string, ResultRef>, ghost owned: set<object>, result: ResultRef,
                           ghost view: set<object>)
      returns (more: map<string, ResultRef>, ghost after: set<object>)
      requires TableWithin(copies, owned) && Within(result, view)
      ensures owned <= after && fresh(after - owned) && TableWithin(more, after)
      ensures TableValues(more, after) == TableValues(copies, owned)[result.moduleID := Value(result, view)]
    {
      var copy, private := CloneResult(result, view);
      TableUpdated(copies, owned, copy, private);
      more, after := copies[copy.moduleID := copy], owned + private;
    }

    method Snapshot() returns (copies: map<string, ResultRef>, ghost owned: set<object>)
      requires Valid()
      ensures fresh(owned) && TableWithin(copies, owned)
      ensures TableValues(copies, owned) == LatestValues().table
    {
      copies, owned := map[], {};
      ghost var values := TableValues(latest, reach);
      var keys := latest.Keys;
      while keys != {}
        invariant keys <= latest.Keys
        invariant Valid() && TableValues(latest, reach) == values
        invariant fresh(owned) && TableWithin(copies, owned)
        invariant TableValues(copies, owned) == values - keys
        decreases |keys|
      {
        var key :| key in keys;
        RestoredOne(values, keys, key);
        copies, owned := AddClone(copies, owned, latest[key], reach);
        keys := keys - {key};
      }
    }

    /** One tick of the loop; said is what its modules say. */
    method RunTick(tick: Tick<ResultRef>, ghost world: set<object>, ghost said: Tick<MonitorResult>)
      returns (errors: set<ErrorKind>)
      requires Valid() && this !in world && TurnsWithin(tick.turns, world) && TickValue(tick, world) == said
      modifies this
      ensures Valid()
      ensures errors == RunOnceOn(hasHandler, old(View()), said).errors
      ensures View() == RunOnceOn(hasHandler, old(View()), said).kept
    {
      var _, failures, _ := RunOnce(tick, world);
      errors := failures;
    }

    /** The ticks are those that are taken before the context is seen to be done. */
    method RunLoop(interval: int, first: Tick<ResultRef>, later: seq<Tick<ResultRef>>, ghost world: set<object>)
      returns (error: LoopError)
      requires Valid() && this !in world && TicksWithin([first] + later, world)
      modifies this
      ensures Valid()
      ensures (View(), error) == old(if interval <= 0 then (View(), IntervalNotPositive)
                                     else LoopOn(hasHandler, View(), TickValues([first] + later, world)))
    {
      if interval <= 0 {
        return IntervalNotPositive;
      }
      ghost var ticks := [first] + later;
      ghost var said := TickValues(ticks, world);
      ghost var start := View();
      assert ticks[0] == first;
      var firstErrors := RunTick(first, world, said[0]);
      if firstErrors != {} && !IsRecoverable(firstErrors) {
        return Fatal(firstErrors);
      }
      for i := 0 to |later|
        invariant Valid()
        invariant TicksWithin(ticks, world) && TickValues(ticks, world) == said
        invariant LoopOn(hasHandler, start, said) == LoopOn(hasHandler, View(), said[i + 1..])
      {
        assert ticks[i + 1] == later[i] && said[i + 1..][1..] == said[i + 2..];
        var errors := RunTick(later[i], world, said[i + 1]);
        if errors != {} && !IsRecoverable(errors) {
          return Fatal(errors);
        }
      }
      error := ContextDone;
    }
  }

  /** Whoever holds the memory may write anything to it. */
  method AnyWrites(ghost memory: set<object>)
    modifies memory
  {
  }

  /** Whatever the caller then writes to the results of a pass and to a snapshot, the service
      still keeps what the pass left. */
  method PassThenScribble(service: Service, tick: Tick<ResultRef>, ghost world: set<object>)
    requires service.Valid() && service !in world && TurnsWithin(tick.turns, world)
    modifies service
    ensures service.Valid()
    ensures service.View() == old(RunOnceOn(service.hasHandler, service.View(), TickValue(tick, world))).kept
  {
    var _, _, owned := service.RunOnce(tick, world);
    var _, private := service.Snapshot();
    AnyWrites(owned + private);
  }
}
