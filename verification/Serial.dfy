/** Calls that run under one mutex, whatever they do: any interleaving of their small steps
    is a sequential run of the whole calls. */
module Serial {
  import opened Wrappers

  /** How a call moves under the mutex: small steps on the shared state S and the call's own
      state L, and what is left of the call if it is not disturbed. */
  datatype Machine<!S, !C, !L, !O> = Machine(
    start: L,
    advance: (C, S, L) -> (S, L),
    outcome: L -> Option<O>,
    finish: (C, S, L) -> (S, O),
    big: (S, C) -> (S, O))

  /** finish follows the small steps, and from the start it is the big step. */
  ghost predicate Lawful<S(!new), C(!new), L(!new), O>(m: Machine<S, C, L, O>) {
    && (forall c, s, l :: m.outcome(l).Some? ==> m.finish(c, s, l) == (s, m.outcome(l).value))
    && (forall c, s, l :: m.outcome(l).None? ==>
          m.finish(c, s, l) == m.finish(c, m.advance(c, s, l).0, m.advance(c, s, l).1))
    && (forall c, s :: m.finish(c, s, m.start) == m.big(s, c))
  }

  datatype Thread<C, L> =
    | Idle
    | Waiting(call: C)
    | Inside(call: C, local: L)
    | Rehearsing

  /** The history variables: what was invoked, in which order the mutex was taken, and what
      the calls that gave it back returned. */
  datatype System<S, C, L, O> = System(
    threads: map<nat, Thread<C, L>>, lock: Option<nat>, shared: S,
    invoked: seq<(nat, C)>, entered: seq<(nat, C)>, left: seq<(nat, O)>)

  /** A dry run is a call that never takes the mutex and never touches the shared state. */
  datatype Action<C> =
    | Invoke(thread: nat, call: C)
    | Acquire(thread: nat)
    | Move(thread: nat)
    | Release(thread: nat)
    | BeginDryRun(thread: nat)
    | EndDryRun(thread: nat)

  function At<S, C, L, O>(sys: System<S, C, L, O>, t: nat): Thread<C, L> {
    if t in sys.threads then sys.threads[t] else Idle
  }

  function Put<S, C, L, O>(sys: System<S, C, L, O>, t: nat, thread: Thread<C, L>): System<S, C, L, O> {
    sys.(threads := sys.threads[t := thread])
  }

  /** The scheduler's next choice. A choice that is not possible now changes nothing. */
  function Apply<S, C, L, O>(m: Machine<S, C, L, O>, sys: System<S, C, L, O>, action: Action<C>): System<S, C, L, O> {
    var t := action.thread;
    var thread := At(sys, t);
    match action
    case Invoke(_, call) =>
      if thread.Idle? then Put(sys, t, Waiting(call)).(invoked := sys.invoked + [(t, call)]) else sys
    case Acquire(_) =>
      if thread.Waiting? && sys.lock.None?
      then Put(sys, t, Inside(thread.call, m.start)).(lock := Some(t), entered := sys.entered + [(t, thread.call)])
      else sys
    case Move(_) =>
      if thread.Inside? && m.outcome(thread.local).None?
      then
        var next := m.advance(thread.call, sys.shared, thread.local);
        Put(sys, t, Inside(thread.call, next.1)).(shared := next.0)
      else sys
    case Release(_) =>
      if thread.Inside? && m.outcome(thread.local).Some?
      then Put(sys, t, Idle).(lock := None, left := sys.left + [(t, m.outcome(thread.local).value)])
      else sys
    case BeginDryRun(_) => if thread.Idle? then Put(sys, t, Rehearsing) else sys
    case EndDryRun(_) => if thread.Rehearsing? then Put(sys, t, Idle) else sys
  }

  function After<S, C, L, O>(m: Machine<S, C, L, O>, initial: S, actions: seq<Action<C>>): System<S, C, L, O> {
    if actions == [] then System(map[], None, initial, [], [], [])
    else Apply(m, After(m, initial, actions[..|actions| - 1]), actions[|actions| - 1])
  }

  /** The shared state after running whole calls one after the other. */
  function Sequential<S, C, L, O>(m: Machine<S, C, L, O>, initial: S, entries: seq<(nat, C)>): S {
    if entries == [] then initial
    else m.big(Sequential(m, initial, entries[..|entries| - 1]), entries[|entries| - 1].1).0
  }

  /** One thread's share of a history. */
  function ByThread<C>(entries: seq<(nat, C)>, t: nat): seq<C> {
    if entries == [] then []
    else
      var before := ByThread(entries[..|entries| - 1], t);
      if entries[|entries| - 1].0 == t then before + [entries[|entries| - 1].1] else before
  }

  // ----- the invariant -----

  ghost predicate Exclusive<S, C, L, O>(sys: System<S, C, L, O>) {
    forall t: nat :: At(sys, t).Inside? <==> sys.lock == Some(t)
  }

  /** A thread's calls take the mutex in the order it invoked them; at most one is waiting. */
  ghost predicate InOrder<S, C, L, O>(sys: System<S, C, L, O>, t: nat) {
    ByThread(sys.invoked, t) == ByThread(sys.entered, t) + (if At(sys, t).Waiting? then [At(sys, t).call] else [])
  }

  /** Every finished call returned what it returns in the sequential run. */
  ghost predicate Replayed<S, C, L, O>(m: Machine<S, C, L, O>, initial: S, sys: System<S, C, L, O>) {
    && |sys.left| <= |sys.entered|
    && (forall i :: 0 <= i < |sys.left| ==>
          sys.left[i] == (sys.entered[i].0, m.big(Sequential(m, initial, sys.entered[..i]), sys.entered[i].1).1))
  }

  /** The mutex is free and the shared state is that of the sequential run, or its holder, left
      alone, would take the state of the run before it to the state after it. */
  ghost predicate OnTrack<S, C, L, O>(m: Machine<S, C, L, O>, initial: S, sys: System<S, C, L, O>) {
    match sys.lock
    case None => |sys.left| == |sys.entered| && sys.shared == Sequential(m, initial, sys.entered)
    case Some(t) =>
      && At(sys, t).Inside?
      && var n, call, local := |sys.entered| - 1, At(sys, t).call, At(sys, t).local;
         && |sys.left| == n >= 0 && sys.entered[n] == (t, call)
         && m.finish(call, sys.shared, local) == m.big(Sequential(m, initial, sys.entered[..n]), call)
  }

  ghost predicate Inv<S, C, L, O>(m: Machine<S, C, L, O>, initial: S, sys: System<S, C, L, O>) {
    Exclusive(sys) && (forall t: nat :: InOrder(sys, t)) && Replayed(m, initial, sys) && OnTrack(m, initial, sys)
  }

  lemma ByThreadAppend<C>(entries: seq<(nat, C)>, entry: (nat, C), t: nat)
    ensures ByThread(entries + [entry], t) == ByThread(entries, t) + (if entry.0 == t then [entry.1] else [])
  {
    assert (entries + [entry])[..|entries|] == entries;
  }

  lemma ExclusiveKept<S, C, L, O>(m: Machine<S, C, L, O>, sys: System<S, C, L, O>, action: Action<C>)
    requires Exclusive(sys)
    ensures Exclusive(Apply(m, sys, action))
  {
    var next := Apply(m, sys, action);
    forall u: nat ensures At(next, u).Inside? <==> next.lock == Some(u) {
      assert At(sys, u).Inside? <==> sys.lock == Some(u);
      assert At(sys, action.thread).Inside? <==> sys.lock == Some(action.thread);
      assert u != action.thread ==> At(next, u) == At(sys, u);
    }
  }

  lemma InvokeKeepsOrder<S, C, L, O>(m: Machine<S, C, L, O>, sys: System<S, C, L, O>, t: nat, call: C, u: nat)
    requires InOrder(sys, u)
    ensures InOrder(Apply(m, sys, Invoke(t, call)), u)
  {
    if At(sys, t).Idle? {
      var next := Apply(m, sys, Invoke(t, call));
      ByThreadAppend(sys.invoked, (t, call), u);
      assert next.entered == sys.entered && next.invoked == sys.invoked + [(t, call)];
      assert At(next, u) == if t == u then Waiting(call) else At(sys, u);
    }
  }

  lemma AcquireKeepsOrder<S, C, L, O>(m: Machine<S, C, L, O>, sys: System<S, C, L, O>, t: nat, u: nat)
    requires InOrder(sys, u)
    ensures InOrder(Apply(m, sys, Acquire(t)), u)
  {
    if At(sys, t).Waiting? {
      ByThreadAppend(sys.entered, (t, At(sys, t).call), u);
    }
    if t != u {
      assert At(Apply(m, sys, Acquire(t)), u) == At(sys, u);
    }
  }

  lemma InOrderKept<S, C, L, O>(m: Machine<S, C, L, O>, sys: System<S, C, L, O>, action: Action<C>, u: nat)
    requires InOrder(sys, u)
    ensures InOrder(Apply(m, sys, action), u)
  {
    match action
    case Invoke(t, call) => InvokeKeepsOrder(m, sys, t, call, u);
    case Acquire(t) => AcquireKeepsOrder(m, sys, t, u);
    case _ =>
      if action.thread != u {
        assert At(Apply(m, sys, action), u) == At(sys, u);
      }
  }

  lemma AcquireKept<S(!new), C(!new), L(!new), O>(m: Machine<S, C, L, O>, initial: S, sys: System<S, C, L, O>, t: nat)
    requires Lawful(m) && Replayed(m, initial, sys) && OnTrack(m, initial, sys)
    requires sys.lock.None? && At(sys, t).Waiting?
    ensures Replayed(m, initial, Apply(m, sys, Acquire(t))) && OnTrack(m, initial, Apply(m, sys, Acquire(t)))
  {
    var next := Apply(m, sys, Acquire(t));
    assert next.entered[..|sys.entered|] == sys.entered;
    forall i | 0 <= i < |next.left|
      ensures next.left[i] == (next.entered[i].0, m.big(Sequential(m, initial, next.entered[..i]), next.entered[i].1).1)
    {
      assert next.entered[..i] == sys.entered[..i];
    }
  }

  lemma ReleaseKept<S(!new), C(!new), L(!new), O>(m: Machine<S, C, L, O>, initial: S, sys: System<S, C, L, O>, t: nat)
    requires Lawful(m) && Replayed(m, initial, sys) && OnTrack(m, initial, sys)
    requires sys.lock == Some(t) && m.outcome(At(sys, t).local).Some?
    ensures Replayed(m, initial, Apply(m, sys, Release(t))) && OnTrack(m, initial, Apply(m, sys, Release(t)))
  {
    var next := Apply(m, sys, Release(t));
    var n := |sys.left|;
    assert next.entered == sys.entered && next.entered[..n + 1] == next.entered;
    forall i | 0 <= i < n + 1
      ensures next.left[i] == (next.entered[i].0, m.big(Sequential(m, initial, next.entered[..i]), next.entered[i].1).1)
    {
      if i < n {
        assert next.left[i] == sys.left[i];
      }
    }
  }

  lemma ApplyKeepsInv<S(!new), C(!new), L(!new), O>(m: Machine<S, C, L, O>, initial: S, sys: System<S, C, L, O>,
                                                    action: Action<C>)
    requires Lawful(m) && Inv(m, initial, sys)
    ensures Inv(m, initial, Apply(m, sys, action))
  {
    var next := Apply(m, sys, action);
    var t := action.thread;
    ExclusiveKept(m, sys, action);
    forall u: nat ensures InOrder(next, u) {
      InOrderKept(m, sys, action, u);
    }
    assert At(sys, t).Inside? <==> sys.lock == Some(t);
    if next.lock == sys.lock {
      if sys.lock.Some? && sys.lock.value != t {
        assert At(next, sys.lock.value) == At(sys, sys.lock.value);
      }
    } else if action.Acquire? {
      AcquireKept(m, initial, sys, t);
    } else {
      ReleaseKept(m, initial, sys, t);
    }
  }

  /** Whatever the scheduler does: the order in which the mutex was taken is a sequential run
      of the calls the threads invoked, each thread's in its own order; every finished call
      returned what it returns in that run; and when the mutex is free so is the state. */
  lemma {:induction false} EveryInterleavingIsSequential<S(!new), C(!new), L(!new), O>(
      m: Machine<S, C, L, O>, initial: S, actions: seq<Action<C>>)
    requires Lawful(m)
    ensures Inv(m, initial, After(m, initial, actions))
  {
    if actions != [] {
      EveryInterleavingIsSequential(m, initial, actions[..|actions| - 1]);
      ApplyKeepsInv(m, initial, After(m, initial, actions[..|actions| - 1]), actions[|actions| - 1]);
    }
  }

  /** The order is only ever extended at its end, so a call that has returned stays before
      every call invoked later. */
  lemma {:induction false} OrderOnlyGrows<S, C, L, O>(m: Machine<S, C, L, O>, initial: S, actions: seq<Action<C>>,
                                                      more: seq<Action<C>>)
    ensures After(m, initial, actions).entered <= After(m, initial, actions + more).entered
    ensures After(m, initial, actions).left <= After(m, initial, actions + more).left
    decreases |more|
  {
    if more == [] {
      assert actions + more == actions;
    } else {
      var n := |more| - 1;
      OrderOnlyGrows(m, initial, actions, more[..n]);
      assert (actions + more)[..|actions + more| - 1] == actions + more[..n];
    }
  }

  // ----- and the other way round -----

  /** Every call comes to an end: each small step lowers its rank. */
  ghost predicate Terminates<S(!new), C(!new), L(!new), O>(m: Machine<S, C, L, O>, rank: L -> nat) {
    forall c, s, l :: m.outcome(l).None? ==> rank(m.advance(c, s, l).1) < rank(l)
  }

  lemma AfterOneMore<S, C, L, O>(m: Machine<S, C, L, O>, initial: S, actions: seq<Action<C>>, action: Action<C>)
    ensures After(m, initial, actions + [action]) == Apply(m, After(m, initial, actions), action)
  {
    assert (actions + [action])[..|actions|] == actions;
  }

  /** Only t is doing anything. */
  ghost predicate OnlyBusy<S, C, L, O>(sys: System<S, C, L, O>, t: nat) {
    forall u: nat :: u != t ==> At(sys, u).Idle?
  }

  /** The holder of the mutex can be moved on until it has its outcome. */
  lemma {:induction false} HolderCanFinish<S(!new), C(!new), L(!new), O>(
      m: Machine<S, C, L, O>, rank: L -> nat, initial: S, actions: seq<Action<C>>, t: nat)
        returns (more: seq<Action<C>>)
    requires Terminates(m, rank)
    requires At(After(m, initial, actions), t).Inside? && OnlyBusy(After(m, initial, actions), t)
    ensures var sys, next := After(m, initial, actions), After(m, initial, more);
            && At(next, t).Inside? && m.outcome(At(next, t).local).Some? && OnlyBusy(next, t)
            && next.lock == sys.lock && next.invoked == sys.invoked && next.entered == sys.entered
                 && next.left == sys.left
    decreases rank(At(After(m, initial, actions), t).local)
  {
    var sys := After(m, initial, actions);
    if m.outcome(At(sys, t).local).Some? {
      return actions;
    }
    AfterOneMore(m, initial, actions, Move(t));
    var moved := After(m, initial, actions + [Move(t)]);
    assert At(moved, t).Inside?;
    forall u: nat | u != t ensures At(moved, u).Idle? {
      assert At(moved, u) == At(sys, u);
    }
    more := HolderCanFinish(m, rank, initial, actions + [Move(t)], t);
  }

  /** Nothing is lost either: every list of calls, by whichever threads, is what some schedule
      comes to, with the mutex free and every thread idle at its end. */
  lemma {:induction false} EverySequentialRunIsASchedule<S(!new), C(!new), L(!new), O>(
      m: Machine<S, C, L, O>, rank: L -> nat, initial: S, entries: seq<(nat, C)>) returns (actions: seq<Action<C>>)
    requires Lawful(m) && Terminates(m, rank)
    ensures var sys := After(m, initial, actions);
            && sys.lock.None? && (forall t: nat :: At(sys, t).Idle?)
            && sys.invoked == entries && sys.entered == entries && |sys.left| == |entries|
            && sys.shared == Sequential(m, initial, entries)
    decreases |entries|
  {
    if entries == [] {
      return [];
    }
    var n := |entries| - 1;
    var before := EverySequentialRunIsASchedule(m, rank, initial, entries[..n]);
    var (t, c) := entries[n];
    actions := OneMoreCall(m, rank, initial, before, t, c);
    assert entries[..n] + [(t, c)] == entries;
    EveryInterleavingIsSequential(m, initial, actions);
  }

  lemma OneMoreCall<S(!new), C(!new), L(!new), O>(
      m: Machine<S, C, L, O>, rank: L -> nat, initial: S, before: seq<Action<C>>, t: nat, c: C)
    returns (actions: seq<Action<C>>)
    requires Terminates(m, rank)
    requires After(m, initial, before).lock.None? && forall u: nat :: At(After(m, initial, before), u).Idle?
    ensures var sys, next := After(m, initial, before), After(m, initial, actions);
            && next.lock.None? && (forall u: nat :: At(next, u).Idle?)
            && next.invoked == sys.invoked + [(t, c)] && next.entered == sys.entered + [(t, c)]
            && |next.left| == |sys.left| + 1
  {
    var sys := After(m, initial, before);
    AfterOneMore(m, initial, before, Invoke(t, c));
    var invoked := before + [Invoke(t, c)];
    AfterOneMore(m, initial, invoked, Acquire(t));
    var acquired := invoked + [Acquire(t)];
    var inside := After(m, initial, acquired);
    assert At(inside, t).Inside? && inside.lock == Some(t);
    forall u: nat | u != t ensures At(inside, u).Idle? {
      assert At(inside, u) == At(sys, u);
    }
    var finished := HolderCanFinish(m, rank, initial, acquired, t);
    AfterOneMore(m, initial, finished, Release(t));
    actions := finished + [Release(t)];
    var next := After(m, initial, actions);
    forall u: nat ensures At(next, u).Idle? {
      if u != t {
        assert At(next, u) == At(After(m, initial, finished), u);
      }
    }
  }
}
