/** In which order one tick acts on its results, and what it has done when it stops
    (internal/app/alerts.go). */
module AlertOrder {
  import opened Wrappers
  import opened Core
  import opened Withdraw
  import opened Alerts
  import opened AlertRuns

  /** A finding of a result, by position. */
  datatype Place = Place(result: nat, finding: nat)

  predicate IsUrgentAt(results: seq<MonitorResult>, p: Place) {
    p.result < |results| && p.finding < |results[p.result].findings|
    && results[p.result].findings[p.finding].severity == Urgent
  }

  predicate Earlier(p: Place, q: Place) {
    p.result < q.result || (p.result == q.result && p.finding < q.finding)
  }

  /** All places of urgent findings, each once, in the order of results and findings. */
  ghost predicate AllUrgent(results: seq<MonitorResult>, places: seq<Place>) {
    && (forall k :: 0 <= k < |places| ==> IsUrgentAt(results, places[k]))
    && (forall j, k :: 0 <= j < k < |places| ==> Earlier(places[j], places[k]))
    && (forall p :: IsUrgentAt(results, p) ==> p in places)
  }

  /** Two effects for a place: the finding's message as an alert, and an exit in the name of the
      result's module and the finding. */
  function AlertAt(results: seq<MonitorResult>, p: Place): Effect
    requires IsUrgentAt(results, p)
  {
    Alert(results[p.result].findings[p.finding].message)
  }

  function ExitAt(results: seq<MonitorResult>, p: Place): Effect
    requires IsUrgentAt(results, p)
  {
    Effect.Exit(Trigger("urgent", results[p.result].moduleID, results[p.result].findings[p.finding].key))
  }

  // ----- the urgent findings in order -----

  /** All indices of urgent findings, each once, in order. */
  ghost predicate AllUrgentIn(findings: seq<Finding>, js: seq<nat>) {
    && (forall k :: 0 <= k < |js| ==> js[k] < |findings| && findings[js[k]].severity == Urgent)
    && (forall j, k :: 0 <= j < k < |js| ==> js[j] < js[k])
    && (forall j :: 0 <= j < |findings| && findings[j].severity == Urgent ==> j in js)
  }

  lemma {:induction false} UrgentsOfConcat(moduleID: string, a: seq<Finding>, b: seq<Finding>)
    ensures UrgentsOf(moduleID, a + b) == UrgentsOf(moduleID, a) + UrgentsOf(moduleID, b)
    decreases |a|
  {
    if a == [] {
      assert a + b == b;
    } else {
      assert (a + b)[1..] == a[1..] + b;
      UrgentsOfConcat(moduleID, a[1..], b);
    }
  }

  lemma UrgentsOfLast(moduleID: string, findings: seq<Finding>)
    requires findings != []
    ensures var n := |findings| - 1;
            UrgentsOf(moduleID, findings)
            == UrgentsOf(moduleID, findings[..n])
               + (if findings[n].severity == Urgent then [UrgentFinding(moduleID, findings[n])] else [])
  {
    var n := |findings| - 1;
    assert findings == findings[..n] + [findings[n]];
    UrgentsOfConcat(moduleID, findings[..n], [findings[n]]);
    assert [findings[n]][1..] == [];
  }

  lemma {:induction false} UrgentsOfInOrder(moduleID: string, findings: seq<Finding>) returns (js: seq<nat>)
    ensures AllUrgentIn(findings, js) && |js| == |UrgentsOf(moduleID, findings)|
    ensures forall k :: 0 <= k < |js| ==>
              UrgentsOf(moduleID, findings)[k] == UrgentFinding(moduleID, findings[js[k]])
    decreases |findings|
  {
    if findings == [] {
      return [];
    }
    var n := |findings| - 1;
    var before := UrgentsOfInOrder(moduleID, findings[..n]);
    UrgentsOfLast(moduleID, findings);
    js := before + if findings[n].severity == Urgent then [n] else [];
    IndicesExtended(findings, before, js);
    forall k | 0 <= k < |js| ensures UrgentsOf(moduleID, findings)[k] == UrgentFinding(moduleID, findings[js[k]]) {
      if k < |before| {
        assert findings[..n][before[k]] == findings[js[k]];
      }
    }
  }

  lemma IndicesExtended(findings: seq<Finding>, before: seq<nat>, js: seq<nat>)
    requires findings != [] && AllUrgentIn(findings[..|findings| - 1], before)
    requires js == before + if findings[|findings| - 1].severity == Urgent then [|findings| - 1] else []
    ensures AllUrgentIn(findings, js)
  {
    var n := |findings| - 1;
    forall k | 0 <= k < |js| ensures js[k] < |findings| && findings[js[k]].severity == Urgent {
      if k < |before| {
        assert findings[..n][before[k]].severity == Urgent;
      }
    }
    forall j | 0 <= j < |findings| && findings[j].severity == Urgent ensures j in js {
      if j < n {
        assert findings[..n][j].severity == Urgent;
        assert j in before;
      } else {
        assert js[|before|] == n;
      }
    }
  }

  lemma {:induction false} UrgentsLast(results: seq<MonitorResult>)
    requires results != []
    ensures var last := results[|results| - 1];
            Urgents(results) == Urgents(results[..|results| - 1]) + UrgentsOf(last.moduleID, last.findings)
    decreases |results|
  {
    if |results| > 1 {
      UrgentsLast(results[1..]);
      assert results[1..][..|results| - 2] == results[..|results| - 1][1..];
    } else {
      assert Urgents(results[1..]) == [] && Urgents(results[..0]) == [];
    }
  }

  lemma {:induction false} UrgentsInOrder(results: seq<MonitorResult>) returns (places: seq<Place>)
    ensures AllUrgent(results, places) && |places| == |Urgents(results)|
    ensures forall k :: 0 <= k < |places| ==> IsFindingAt(results, places[k], Urgents(results)[k])
    decreases |results|
  {
    if results == [] {
      return [];
    }
    var n := |results| - 1;
    var before := UrgentsInOrder(results[..n]);
    var js := UrgentsOfInOrder(results[n].moduleID, results[n].findings);
    UrgentsLast(results);
    var later := seq(|js|, k requires 0 <= k < |js| => Place(n, js[k]));
    places := before + later;
    PlacesJoin(results, before, js, places);
    FindingsJoin(results, Urgents(results[..n]), before, UrgentsOf(results[n].moduleID, results[n].findings), later);
  }

  lemma FindingsJoin(results: seq<MonitorResult>, us: seq<UrgentFinding>, before: seq<Place>,
                     more: seq<UrgentFinding>, later: seq<Place>)
    requires results != [] && |us| == |before| && |more| == |later|
    requires forall k :: 0 <= k < |before| ==> IsFindingAt(results[..|results| - 1], before[k], us[k])
    requires forall k :: 0 <= k < |later| ==> IsFindingAt(results, later[k], more[k])
    ensures forall k :: 0 <= k < |before + later| ==> IsFindingAt(results, (before + later)[k], (us + more)[k])
  {
    forall k | 0 <= k < |before + later| ensures IsFindingAt(results, (before + later)[k], (us + more)[k]) {
      if k < |before| {
        assert IsFindingAt(results[..|results| - 1], before[k], us[k]);
      } else {
        assert IsFindingAt(results, later[k - |before|], more[k - |before|]);
      }
    }
  }

  predicate IsFindingAt(results: seq<MonitorResult>, p: Place, u: UrgentFinding) {
    && p.result < |results| && p.finding < |results[p.result].findings|
    && u == UrgentFinding(results[p.result].moduleID, results[p.result].findings[p.finding])
  }

  lemma PlacesJoin(results: seq<MonitorResult>, before: seq<Place>, js: seq<nat>, places: seq<Place>)
    requires results != [] && AllUrgent(results[..|results| - 1], before)
    requires AllUrgentIn(results[|results| - 1].findings, js)
    requires |places| == |before| + |js| && before <= places
    requires forall k :: 0 <= k < |js| ==> places[|before| + k] == Place(|results| - 1, js[k])
    ensures AllUrgent(results, places)
  {
    var n := |results| - 1;
    forall k | 0 <= k < |places| ensures IsUrgentAt(results, places[k]) {
      if k < |before| {
        assert places[k] == before[k] && IsUrgentAt(results[..n], before[k]);
      } else {
        assert places[|before| + (k - |before|)] == Place(n, js[k - |before|]);
      }
    }
    forall j, k | 0 <= j < k < |places| ensures Earlier(places[j], places[k]) {
      if k < |before| {
        assert Earlier(before[j], before[k]);
      } else {
        assert places[|before| + (k - |before|)] == Place(n, js[k - |before|]);
        if j < |before| {
          assert IsUrgentAt(results[..n], before[j]);
        } else {
          assert places[|before| + (j - |before|)] == Place(n, js[j - |before|]);
        }
      }
    }
    forall p | IsUrgentAt(results, p) ensures p in places {
      if p.result == n {
        var k :| 0 <= k < |js| && js[k] == p.finding;
        assert places[|before| + k] == p;
      } else {
        assert IsUrgentAt(results[..n], p);
        var k :| 0 <= k < |before| && before[k] == p;
        assert places[k] == p;
      }
    }
  }

  lemma {:induction false} IntendedIs(us: seq<UrgentFinding>)
    ensures |Intended(us)| == 2 * |us|
    ensures forall k :: 0 <= k < |us| ==>
              && Intended(us)[2 * k] == Alert(us[k].finding.message)
              && Intended(us)[2 * k + 1] == Effect.Exit(TriggerFor(us[k]))
    decreases |us|
  {
    if us != [] {
      IntendedIs(us[1..]);
      forall k | 1 <= k < |us|
        ensures Intended(us)[2 * k] == Alert(us[k].finding.message)
        ensures Intended(us)[2 * k + 1] == Effect.Exit(TriggerFor(us[k]))
      {
        assert Intended(us)[2 * k] == Intended(us[1..])[2 * (k - 1)];
        assert Intended(us)[2 * k + 1] == Intended(us[1..])[2 * (k - 1) + 1];
      }
    }
  }

  // ----- the withdrawals are calls of the service -----

  /** The calls that the findings make, each with the answers of its moment. */
  function CallsFor(us: seq<UrgentFinding>, moments: nat -> Moment, i: nat): seq<Call> {
    if us == [] then [] else [Call(TriggerFor(us[0]), moments(i).answers)] + CallsFor(us[1..], moments, i + 1)
  }

  lemma {:induction false} CallsForAt(us: seq<UrgentFinding>, moments: nat -> Moment, i: nat)
    ensures |CallsFor(us, moments, i)| == |us|
    ensures forall k :: 0 <= k < |us| ==> CallsFor(us, moments, i)[k] == Call(TriggerFor(us[k]), moments(i + k).answers)
    decreases |us|
  {
    if us != [] {
      CallsForAt(us[1..], moments, i + 1);
    }
  }

  lemma {:induction false} RunFromTheFront(config: ServiceConfig, state: State, call: Call, calls: seq<Call>)
    ensures Run(config, state, [call] + calls) == Run(config, Step(config, state, call).state, calls)
    decreases |calls|
  {
    if calls == [] {
      assert [call] + calls == [call] && [call][..0] == [];
      assert Run(config, state, []) == state;
    } else {
      var n := |calls| - 1;
      RunFromTheFront(config, state, call, calls[..n]);
      assert ([call] + calls)[..|[call] + calls| - 1] == [call] + calls[..n];
    }
  }

  lemma RunFirst(config: ServiceConfig, state: State, calls: seq<Call>, m: nat)
    requires m < |calls|
    ensures Run(config, state, calls[..m + 1]) == Run(config, Step(config, state, calls[0]).state, calls[1..][..m])
  {
    RunFromTheFront(config, state, calls[0], calls[1..][..m]);
    assert calls[..m + 1] == [calls[0]] + calls[1..][..m];
  }

  /** How a tick has stopped when it has made so many calls of the withdrawal service: all of
      them, or at an alert that did not go out, or at a call that reported this error. */
  predicate StoppedAt(config: ServiceConfig, state: State, calls: seq<Call>, moments: nat -> Moment, i: nat,
                      made: nat, error: Option<AlertError>)
    requires made <= |calls|
  {
    match error
    case None => made == |calls|
    case Some(EffectFailed(Alert(_), cause)) => made < |calls| && !moments(i + made).alertOK && cause.None?
    case Some(EffectFailed(Exit(_), cause)) =>
      && made > 0 && cause.Some?
      && cause == Step(config, Run(config, state, calls[..made - 1]), calls[made - 1]).outcome.error
  }

  /** How many calls of the withdrawal service a tick makes. */
  function Made(config: ServiceConfig, s: AlertState, us: seq<UrgentFinding>, moments: nat -> Moment, i: nat): nat
    decreases |us|
  {
    if us == [] || !moments(i).alertOK then 0
    else
      var (next, error) := ActOn(config, s, us[0], moments(i));
      1 + if error.Some? then 0 else Made(config, next, us[1..], moments, i + 1)
  }

  /** The withdrawal service has made exactly the calls of the findings whose alert went out. */
  lemma {:induction false} ExitsAreARun(config: ServiceConfig, s: AlertState, us: seq<UrgentFinding>,
                                        moments: nat -> Moment, i: nat)
    ensures var calls, made := CallsFor(us, moments, i), Made(config, s, us, moments, i);
            && made <= |calls|
            && HandleFrom(config, s, us, moments, i).0.withdrawal == Run(config, s.withdrawal, calls[..made])
    decreases |us|
  {
    if us != [] {
      var (next, error) := ActOn(config, s, us[0], moments(i));
      var calls := CallsFor(us, moments, i);
      assert calls[1..] == CallsFor(us[1..], moments, i + 1);
      if moments(i).alertOK {
        if error.None? {
          ExitsAreARun(config, next, us[1..], moments, i + 1);
          RunFirst(config, s.withdrawal, calls, Made(config, next, us[1..], moments, i + 1));
        } else {
          RunFirst(config, s.withdrawal, calls, 0);
          assert calls[1..][..0] == [];
        }
      } else {
        assert calls[..0] == [];
      }
    }
  }

  lemma {:induction false} TickStops(config: ServiceConfig, s: AlertState, us: seq<UrgentFinding>,
                                     moments: nat -> Moment, i: nat)
    requires Made(config, s, us, moments, i) <= |CallsFor(us, moments, i)|
    ensures var calls, made := CallsFor(us, moments, i), Made(config, s, us, moments, i);
            StoppedAt(config, s.withdrawal, calls, moments, i, made, HandleFrom(config, s, us, moments, i).1)
    decreases |us|
  {
    if us != [] && moments(i).alertOK {
      var (next, error) := ActOn(config, s, us[0], moments(i));
      var calls := CallsFor(us, moments, i);
      assert calls[1..] == CallsFor(us[1..], moments, i + 1);
      if error.None? {
        var later := Made(config, next, us[1..], moments, i + 1);
        ExitsAreARun(config, next, us[1..], moments, i + 1);
        TickStops(config, next, us[1..], moments, i + 1);
        StoppedLater(config, s.withdrawal, calls, moments, i, later,
                     HandleFrom(config, next, us[1..], moments, i + 1).1);
      } else {
        assert calls[..0] == [] && Run(config, s.withdrawal, []) == s.withdrawal;
      }
    }
  }

  lemma StoppedLater(config: ServiceConfig, state: State, calls: seq<Call>, moments: nat -> Moment, i: nat,
                     later: nat, error: Option<AlertError>)
    requires later < |calls|
    requires StoppedAt(config, Step(config, state, calls[0]).state, calls[1..], moments, i + 1, later, error)
    ensures StoppedAt(config, state, calls, moments, i, later + 1, error)
  {
    if later > 0 {
      RunFirst(config, state, calls, later - 1);
      assert calls[1..][later - 1] == calls[later];
    }
  }

  lemma {:induction false} TraceCounts(config: ServiceConfig, s: AlertState, us: seq<UrgentFinding>,
                                       moments: nat -> Moment, i: nat)
    ensures var (after, error) := HandleFrom(config, s, us, moments, i); var made := Made(config, s, us, moments, i);
            |after.trace| == |s.trace| + 2 * made - if error.Some? && error.value.effect.Exit? then 1 else 0
    decreases |us|
  {
    if us != [] {
      var (next, error) := ActOn(config, s, us[0], moments(i));
      ActEffects(config, s, us[0], moments(i));
      if error.None? {
        TraceCounts(config, next, us[1..], moments, i + 1);
      }
    }
  }

  /** The effects and calls that belong to a place. */
  ghost predicate BelongTo(results: seq<MonitorResult>, places: seq<Place>, moments: nat -> Moment,
                           effects: seq<Effect>, calls: seq<Call>)
  {
    && AllUrgent(results, places) && |effects| == 2 * |places| && |calls| == |places|
    && forall k :: 0 <= k < |places| ==>
         && effects[2 * k] == AlertAt(results, places[k]) && effects[2 * k + 1] == ExitAt(results, places[k])
         && calls[k] == Call(ExitAt(results, places[k]).trigger, moments(k).answers)
  }

  lemma FindingsBelong(results: seq<MonitorResult>, moments: nat -> Moment) returns (places: seq<Place>)
    ensures BelongTo(results, places, moments, Intended(Urgents(results)), CallsFor(Urgents(results), moments, 0))
  {
    var us := Urgents(results);
    places := UrgentsInOrder(results);
    IntendedIs(us);
    CallsForAt(us, moments, 0);
    forall k | 0 <= k < |places|
      ensures Intended(us)[2 * k] == AlertAt(results, places[k])
      ensures Intended(us)[2 * k + 1] == ExitAt(results, places[k])
      ensures CallsFor(us, moments, 0)[k] == Call(ExitAt(results, places[k]).trigger, moments(k).answers)
    {
      assert IsFindingAt(results, places[k], us[k]);
    }
  }

  /** One tick, for any results. What it does follows all urgent findings in the order of the
      results and of their findings, each once: an alert with the finding's message, then an
      exit in the name of its module. It stops at the first effect that fails and names it, and
      without a failure it does all of them. The withdrawal service goes through a run of
      exactly the exits that were tried. */
  lemma EffectsFollowTheFindings(config: ServiceConfig, s: AlertState, results: seq<MonitorResult>,
                                 moments: nat -> Moment)
    returns (places: seq<Place>, effects: seq<Effect>, done: nat, calls: seq<Call>, made: nat)
    ensures BelongTo(results, places, moments, effects, calls)
    ensures done <= |effects| && made <= |calls| && made == (done + 1) / 2
    ensures var (after, error) := HandleAll(config, s, results, moments);
            && after.trace == s.trace + effects[..done]
            && (error.None? <==> done == |effects|)
            && (error.Some? ==> error.value.effect == effects[done])
            && after.withdrawal == Run(config, s.withdrawal, calls[..made])
            && StoppedAt(config, s.withdrawal, calls, moments, 0, made, error)
  {
    var us := Urgents(results);
    places := FindingsBelong(results, moments);
    effects, calls, made := Intended(us), CallsFor(us, moments, 0), Made(config, s, us, moments, 0);
    done := EffectsAreAPrefix(config, s, us, moments, 0);
    ExitsAreARun(config, s, us, moments, 0);
    TickStops(config, s, us, moments, 0);
    TraceCounts(config, s, us, moments, 0);
    assert |HandleAll(config, s, results, moments).0.trace| == |s.trace| + done;
  }
}
