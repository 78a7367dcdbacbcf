/** What a pass of the monitor and its loop promise (internal/monitor/service.go). */
module MonitorRuns {
  import opened Wrappers
  import opened Core
  import opened Monitor

  /** A pass gives the results of exactly the modules before the first invalid one, in order. */
  lemma {:induction false} PassResultsExactly(p: Progress, turns: seq<Turn<MonitorResult>>)
    ensures var done, n := Pass(p, turns), |p.results|;
            && |done.results| == n + ValidPrefix(turns) && p.results <= done.results
            && forall i :: 0 <= i < ValidPrefix(turns) ==> done.results[n + i] == ResultOf(turns[i])
    decreases |turns|
  {
    if turns != [] && !Invalid(turns[0].mod) {
      var next := TakeTurn(p, turns[0]);
      var done, n := Pass(p, turns), |p.results|;
      PassResultsExactly(next, turns[1..]);
      assert next.results[n] == ResultOf(turns[0]);
      forall i | 0 <= i < ValidPrefix(turns) ensures done.results[n + i] == ResultOf(turns[i]) {
        if i > 0 {
          assert done.results[|next.results| + (i - 1)] == ResultOf(turns[1..][i - 1]);
        }
      }
    }
  }

  /** It overrides the latest results with them, and stores those that could be stored. */
  lemma {:induction false} PassTablesExactly(p: Progress, turns: seq<Turn<MonitorResult>>)
    ensures var done, n := Pass(p, turns), |p.results|;
            && |done.results| == n + ValidPrefix(turns)
            && done.latest.table == Overridden(p.latest.table, done.results[n..])
            && done.rows == p.rows + RowsOf(turns, done.results[n..])
    decreases |turns|
  {
    PassResultsExactly(p, turns);
    if turns != [] && !Invalid(turns[0].mod) {
      var done, n := Pass(p, turns), |p.results|;
      PassTablesExactly(TakeTurn(p, turns[0]), turns[1..]);
      assert done.results[n..][1..] == done.results[n + 1..];
      assert done.results[n + 0] == ResultOf(turns[0]);
    }
  }

  /** What is kept of a module: everything it reported, under its id; or, if it failed, one
      warning that says so and nothing that is known. */
  predicate KeptFrom(turn: Turn<MonitorResult>, kept: MonitorResult) {
    && turn.mod.Module? && kept.moduleID == turn.mod.id
    && match turn.mod.run
       case Success(said) =>
         && kept.status == said.status && kept.observedAt == said.observedAt
         && kept.metrics == said.metrics && kept.findings == said.findings
       case Failure(text) =>
         && kept.status == UNKNOWN && kept.observedAt == turn.failedAt && kept.metrics == []
         && kept.findings == [Finding("stale_data", Warn, "module " + turn.mod.id + " failed: " + text,
                                      map["module_id" := Word(turn.mod.id)])]
  }

  /** A pass keeps what the modules said, one by one. */
  lemma PassKeepsWhatWasSaid(hasHandler: bool, kept: Kept, tick: Tick<MonitorResult>)
    ensures var results := RunOnceOn(hasHandler, kept, tick).results;
            && |results| == ValidPrefix(tick.turns)
            && forall i :: 0 <= i < |results| ==> KeptFrom(tick.turns[i], results[i])
  {
    PassResultsExactly(Progress([], kept.latest, kept.rows, {}), tick.turns);
    var results := RunOnceOn(hasHandler, kept, tick).results;
    forall i | 0 <= i < |results| ensures KeptFrom(tick.turns[i], results[i]) {
      assert results[0 + i] == ResultOf(tick.turns[i]);
    }
  }

  /** The turns whose rows the repository took, each once, in order. */
  ghost predicate AllStored(turns: seq<Turn<MonitorResult>>, n: nat, stored: seq<nat>)
    requires n <= |turns|
  {
    && (forall k :: 0 <= k < |stored| ==> stored[k] < n && turns[stored[k]].stored)
    && (forall j, k :: 0 <= j < k < |stored| ==> stored[j] < stored[k])
    && (forall j :: 0 <= j < n && turns[j].stored ==> j in stored)
  }

  lemma {:induction false} RowsOfLast(turns: seq<Turn<MonitorResult>>, results: seq<MonitorResult>)
    requires 0 < |results| <= |turns|
    ensures var n := |results| - 1;
            RowsOf(turns, results)
            == RowsOf(turns, results[..n]) + (if turns[n].stored then [Row(results[n], turns[n].storedAt)] else [])
    decreases |results|
  {
    if |results| > 1 {
      RowsOfLast(turns[1..], results[1..]);
      assert results[1..][..|results| - 2] == results[..|results| - 1][1..];
    }
  }

  /** The rows of a pass are the results whose turn could be stored, in order, each with the
      time at which it was stored. */
  lemma {:induction false} RowsAreTheStoredResults(turns: seq<Turn<MonitorResult>>, results: seq<MonitorResult>)
    returns (stored: seq<nat>)
    requires |results| <= |turns|
    ensures AllStored(turns, |results|, stored) && |RowsOf(turns, results)| == |stored|
    ensures forall k :: 0 <= k < |stored| ==>
              RowsOf(turns, results)[k] == Row(results[stored[k]], turns[stored[k]].storedAt)
    decreases |results|
  {
    if results == [] {
      return [];
    }
    var n := |results| - 1;
    var before := RowsAreTheStoredResults(turns, results[..n]);
    RowsOfLast(turns, results);
    stored := before + if turns[n].stored then [n] else [];
    forall j | 0 <= j < |results| && turns[j].stored ensures j in stored {
      if j == n {
        assert stored[|before|] == n;
      } else {
        assert j in before;
      }
    }
  }

  /** While the pass goes on, the table that a snapshot can see is the old one overridden by
      the results so far: after each module the lock is free, and there is nothing in between. */
  lemma {:induction false} PassShowsPrefixes(p: Progress, turns: seq<Turn<MonitorResult>>, k: nat)
    requires k < ValidPrefix(turns)
    ensures var done, n := Pass(p, turns), |p.results|;
            && |done.results| == n + ValidPrefix(turns)
            && |done.latest.seen| == |p.latest.seen| + ValidPrefix(turns) && p.latest.seen <= done.latest.seen
            && done.latest.seen[|p.latest.seen| + k] == Overridden(p.latest.table, done.results[n..n + k + 1])
    decreases |turns|
  {
    var next, done, n := TakeTurn(p, turns[0]), Pass(p, turns), |p.results|;
    PassResultsExactly(p, turns);
    SeenGrows(next, turns[1..]);
    assert done.results[n + 0] == ResultOf(turns[0]);
    if k == 0 {
      assert next.latest.seen[|p.latest.seen|] == next.latest.table;
      assert done.results[n..n + 1] == [ResultOf(turns[0])];
      assert Overridden(next.latest.table, []) == next.latest.table;
      assert done.results[n..n + 1][1..] == [];
    } else {
      PassShowsPrefixes(next, turns[1..], k - 1);
      assert done.results[n..n + k + 1][1..] == done.results[n + 1..n + k + 1];
    }
  }

  lemma {:induction false} SeenGrows(p: Progress, turns: seq<Turn<MonitorResult>>)
    ensures |Pass(p, turns).latest.seen| == |p.latest.seen| + ValidPrefix(turns)
    ensures p.latest.seen <= Pass(p, turns).latest.seen
    ensures Current(p.latest) ==> Current(Pass(p, turns).latest)
    decreases |turns|
  {
    if turns != [] && !Invalid(turns[0].mod) {
      SeenGrows(TakeTurn(p, turns[0]), turns[1..]);
    }
  }

  /** Any snapshot taken while a pass runs is the old table overridden by some prefix of the
      results: by the first m of them if m modules have been taken so far. */
  lemma SnapshotsDuringAPass(hasHandler: bool, kept: Kept, tick: Tick<MonitorResult>, m: nat)
    requires Current(kept.latest) && m <= ValidPrefix(tick.turns)
    ensures var once := RunOnceOn(hasHandler, kept, tick);
            && |once.results| == ValidPrefix(tick.turns)
            && |once.kept.latest.seen| == |kept.latest.seen| + |once.results|
            && once.kept.latest.seen[|kept.latest.seen| - 1 + m] == Overridden(kept.latest.table, once.results[..m])
            && Current(once.kept.latest)
  {
    var start := Progress([], kept.latest, kept.rows, {});
    PassResultsExactly(start, tick.turns);
    SeenGrows(start, tick.turns);
    if m > 0 {
      PassShowsPrefixes(start, tick.turns, m - 1);
    }
  }

  /** It says what went wrong: nothing more and nothing less. */
  lemma {:induction false} PassErrorsExactly(p: Progress, turns: seq<Turn<MonitorResult>>, kind: ErrorKind)
    ensures var seen := turns[..ValidPrefix(turns)];
            kind in Pass(p, turns).errors <==>
            || kind in p.errors
            || (kind == InvalidModule && |seen| < |turns|)
            || (kind == ModuleFailure && AnyFailed(seen))
            || (kind == StorageFailure && AnyUnstored(seen))
    decreases |turns|
  {
    if turns != [] && !Invalid(turns[0].mod) {
      var seen := turns[..ValidPrefix(turns)];
      PassErrorsExactly(TakeTurn(p, turns[0]), turns[1..], kind);
      assert seen[1..] == turns[1..][..ValidPrefix(turns[1..])] && seen[0] == turns[0];
      FirstOrLater(seen);
    }
  }

  lemma FirstOrLater(turns: seq<Turn<MonitorResult>>)
    requires |turns| > 0 && !Invalid(turns[0].mod)
    ensures AnyFailed(turns) <==> turns[0].mod.run.Failure? || AnyFailed(turns[1..])
    ensures AnyUnstored(turns) <==> !turns[0].stored || AnyUnstored(turns[1..])
  {
    assert forall i :: 1 <= i < |turns| ==> turns[i] == turns[1..][i - 1];
  }

  /** In the table of latest results, a module without a result in this pass keeps the one
      it had. */
  lemma {:induction false} OthersKeepTheirResult(latest: map<string, MonitorResult>, results: seq<MonitorResult>,
                                                 id: string)
    requires forall j :: 0 <= j < |results| ==> results[j].moduleID != id
    ensures var after := Overridden(latest, results);
            (id in after <==> id in latest) && (id in latest ==> after[id] == latest[id])
    decreases |results|
  {
    if results != [] {
      OthersKeepTheirResult(latest[results[0].moduleID := results[0]], results[1..], id);
    }
  }

  /** And of several results for one module, the last wins. */
  lemma {:induction false} LastResultWins(latest: map<string, MonitorResult>, results: seq<MonitorResult>, i: nat)
    requires i < |results| && forall j :: i < j < |results| ==> results[j].moduleID != results[i].moduleID
    ensures var after := Overridden(latest, results); var id := results[i].moduleID;
            id in after && after[id] == results[i]
    decreases |results|
  {
    var first, rest := results[0], results[1..];
    if i == 0 {
      assert forall j :: 0 <= j < |rest| ==> rest[j] == results[j + 1];
      OthersKeepTheirResult(latest[first.moduleID := first], rest, first.moduleID);
    } else {
      assert rest[i - 1] == results[i] && forall j :: i <= j < |rest| ==> rest[j] == results[j + 1];
      LastResultWins(latest[first.moduleID := first], rest, i - 1);
    }
  }

  /** The handler sees the results, all of them and once, exactly when there is a handler,
      no module was invalid and every row was stored. */
  lemma HandlerRunsExactlyWhen(hasHandler: bool, kept: Kept, tick: Tick<MonitorResult>)
    ensures var runs := hasHandler
            && (forall i :: 0 <= i < |tick.turns| ==> !Invalid(tick.turns[i].mod) && tick.turns[i].stored);
            var once := RunOnceOn(hasHandler, kept, tick);
            && once.kept.handled == kept.handled + (if runs then [once.results] else [])
            && (HandlerFailure in once.errors <==> runs && !tick.handlerOK)
            && (runs ==> |once.results| == |tick.turns|)
  {
    var turns := tick.turns;
    var start := Progress([], kept.latest, kept.rows, {});
    PassResultsExactly(start, turns);
    forall kind { PassErrorsExactly(start, turns, kind); }
    if forall i :: 0 <= i < |turns| ==> !Invalid(turns[i].mod) {
      assert turns[..|turns|] == turns;
    }
  }

  /** Everything that can be asked of the error of a pass. */
  lemma ErrorsOfAPass(hasHandler: bool, kept: Kept, tick: Tick<MonitorResult>)
    ensures var errors := RunOnceOn(hasHandler, kept, tick).errors;
            var turns, k := tick.turns, ValidPrefix(tick.turns);
            && (InvalidModule in errors <==> k < |turns|)
            && (ModuleFailure in errors <==> exists i :: 0 <= i < k && turns[i].mod.run.Failure?)
            && (StorageFailure in errors <==> exists i :: 0 <= i < k && !turns[i].stored)
            && (HandlerFailure in errors <==>
                  hasHandler && !tick.handlerOK && k == |turns| && forall i :: 0 <= i < k ==> turns[i].stored)
  {
    var start, k := Progress([], kept.latest, kept.rows, {}), ValidPrefix(tick.turns);
    forall kind { PassErrorsExactly(start, tick.turns, kind); }
    HandlerRunsExactlyWhen(hasHandler, kept, tick);
    assert forall i :: 0 <= i < k ==> tick.turns[..k][i] == tick.turns[i];
  }

  /** The error of a pass ends the loop exactly when a module was invalid or the row of a
      module before it could not be stored; failing modules and handlers never end it. */
  lemma EndsTheLoopExactlyWhen(hasHandler: bool, kept: Kept, tick: Tick<MonitorResult>)
    ensures var errors := RunOnceOn(hasHandler, kept, tick).errors;
            errors != {} && !IsRecoverable(errors) <==> FatalTick(tick)
  {
    var start := Progress([], kept.latest, kept.rows, {});
    var errors := RunOnceOn(hasHandler, kept, tick).errors;
    PassErrorsExactly(start, tick.turns, InvalidModule);
    PassErrorsExactly(start, tick.turns, StorageFailure);
    assert InvalidModule in errors || StorageFailure in errors <==> FatalTick(tick);
    if errors != {} {
      var some :| some in errors;
      assert some.InvalidModule? || some.StorageFailure? || some.ModuleFailure? || some.HandlerFailure?;
    }
  }

  function FirstFatal(ticks: seq<Tick<MonitorResult>>): (n: nat)
    ensures n <= |ticks| && (forall i :: 0 <= i < n ==> !FatalTick(ticks[i]))
    ensures n < |ticks| ==> FatalTick(ticks[n])
  {
    if ticks == [] || FatalTick(ticks[0]) then 0 else 1 + FirstFatal(ticks[1..])
  }

  /** What is kept after all of the ticks, whether or not they fail. */
  function After(hasHandler: bool, kept: Kept, ticks: seq<Tick<MonitorResult>>): Kept
    decreases |ticks|
  {
    if ticks == [] then kept else After(hasHandler, RunOnceOn(hasHandler, kept, ticks[0]).kept, ticks[1..])
  }

  lemma AfterFirst(hasHandler: bool, kept: Kept, ticks: seq<Tick<MonitorResult>>, n: nat)
    requires 0 < n <= |ticks|
    ensures After(hasHandler, kept, ticks[..n])
         == After(hasHandler, RunOnceOn(hasHandler, kept, ticks[0]).kept, ticks[1..][..n - 1])
  {
    assert ticks[..n][1..] == ticks[1..][..n - 1] && ticks[..n][0] == ticks[0];
  }

  lemma {:induction false} AfterLast(hasHandler: bool, kept: Kept, ticks: seq<Tick<MonitorResult>>, n: nat)
    requires n < |ticks|
    ensures After(hasHandler, kept, ticks[..n + 1])
         == RunOnceOn(hasHandler, After(hasHandler, kept, ticks[..n]), ticks[n]).kept
    decreases n
  {
    AfterFirst(hasHandler, kept, ticks, n + 1);
    if n == 0 {
      assert ticks[..0] == ticks[1..][..0] == [];
    } else {
      AfterFirst(hasHandler, kept, ticks, n);
      AfterLast(hasHandler, RunOnceOn(hasHandler, kept, ticks[0]).kept, ticks[1..], n - 1);
    }
  }

  /** The loop passes over ticks that are not fatal. */
  lemma {:induction false} LoopPasses(hasHandler: bool, kept: Kept, ticks: seq<Tick<MonitorResult>>, n: nat)
    requires n <= |ticks| && forall i :: 0 <= i < n ==> !FatalTick(ticks[i])
    ensures LoopOn(hasHandler, kept, ticks) == LoopOn(hasHandler, After(hasHandler, kept, ticks[..n]), ticks[n..])
    decreases n
  {
    if n == 0 {
      assert ticks[..0] == [] && ticks[0..] == ticks;
    } else {
      EndsTheLoopExactlyWhen(hasHandler, kept, ticks[0]);
      LoopPasses(hasHandler, RunOnceOn(hasHandler, kept, ticks[0]).kept, ticks[1..], n - 1);
      AfterFirst(hasHandler, kept, ticks, n);
      assert ticks[1..][n - 1..] == ticks[n..];
    }
  }

  /** The loop stops with an error of the monitor exactly at the first fatal tick, after that
      tick has had its effect; without one it runs every tick and reports the context. */
  lemma LoopStopsExactlyAtTheFirstFatalTick(hasHandler: bool, kept: Kept, ticks: seq<Tick<MonitorResult>>)
    ensures var n := FirstFatal(ticks);
            var (after, error) := LoopOn(hasHandler, kept, ticks);
            && (n == |ticks| ==> error == ContextDone && after == After(hasHandler, kept, ticks))
            && (n < |ticks| ==>
                  && after == After(hasHandler, kept, ticks[..n + 1])
                  && error == Fatal(RunOnceOn(hasHandler, After(hasHandler, kept, ticks[..n]), ticks[n]).errors))
  {
    var n := FirstFatal(ticks);
    LoopPasses(hasHandler, kept, ticks, n);
    if n == |ticks| {
      assert ticks[..n] == ticks && ticks[n..] == [];
    } else {
      EndsTheLoopExactlyWhen(hasHandler, After(hasHandler, kept, ticks[..n]), ticks[n]);
      AfterLast(hasHandler, kept, ticks, n);
    }
  }
}
