/**
  `LifecycleManager`: the state table, and coroutines that use it, interleaved at every await.
 */
module Lifecycle {
  import opened Wrappers

  datatype State = UNINITIALIZED | INITIALIZING | READY | BUSY | ERROR | TERMINATING | TERMINATED

  function ValidTargets(s: State): set<State> {
    match s
    case UNINITIALIZED => {INITIALIZING, TERMINATED}
    case INITIALIZING => {READY, ERROR, TERMINATING}
    case READY => {BUSY, ERROR, TERMINATING}
    case BUSY => {READY, ERROR, TERMINATING}
    case ERROR => {READY, TERMINATING}
    case TERMINATING => {TERMINATED, ERROR}
    case TERMINATED => {}
  }

  /** The manager's own state. */
  datatype Core = Core(state: State, errorInfo: Option<string>)

  const INITIAL := Core(UNINITIALIZED, None)

  /** `transition_to`: None when it raises. */
  function Transition(c: Core, target: State, info: Option<string>): Option<Core> {
    if target !in ValidTargets(c.state) then None
    else if target == ERROR then
      Some(Core(ERROR, if info.Some? && info.value != "" then info else Some("Unknown error")))
    else Some(Core(target, None))
  }

  /** `error_info` is set, and not empty, exactly in ERROR. */
  predicate ErrorExact(c: Core) {
    (c.errorInfo.Some? <==> c.state == ERROR) && c.errorInfo != Some("")
  }

  // ----- coroutines ----------------------------------------------------------------------

  type TaskId = nat

  /** Every step of a coroutine stands apart here, as when other coroutines hold the lock.  An
      uncontended lock does not suspend: then a coroutine goes from one suspension to the next
      at once, and only those Inside or Starting are met by others.

      Where a task stands between two awaits.  An operation passes from Arriving through the
      auto-initialisation (if it saw UNINITIALIZED) to Entering, Inside, and then Failing (if
      its body raised), Leaving and Releasing.  Starting is an explicit initialisation that
      has not yet marked the backend ready. */
  datatype Phase =
    | AutoInitialising      // saw UNINITIALIZED, about to move to INITIALIZING
    | AutoReady             // moved to INITIALIZING, about to move to READY
    | Checking              // about to test is_ready
    | Entering              // about to move to BUSY
    | Inside                // the body of the operation
    | Failing(info: string) // body raised, about to move to ERROR
    | Leaving               // in finally, about to look at the state
    | Releasing             // saw BUSY in finally, about to move to READY
    | Starting              // explicit initialize() done, mark_ready() to come

  datatype System = System(core: Core, tasks: map<TaskId, Phase>)

  /** One atomic step of some task, or of the code around the operations. */
  datatype Action =
    | Arrive(t: TaskId)           // operation_context entered: read the state
    | Advance(t: TaskId)          // the next await of `t` completes
    | FinishBody(t: TaskId, error: Option<string>)
    | GiveUp(t: TaskId)           // an exception or cancellation ends the coroutine at an await
    | Initialize(t: TaskId)
    | MarkError(info: string)
    | BeginTermination
    | CompleteTermination
    | Recover

  function Go(s: System, t: TaskId, phase: Phase): System {
    s.(tasks := s.tasks[t := phase])
  }

  function End(s: System, t: TaskId): System {
    s.(tasks := s.tasks - {t})
  }

  /** Move to `target` and go on in `phase`; a refused transition ends `t`. */
  function Try(s: System, t: TaskId, target: State, info: Option<string>, phase: Option<Phase>): System {
    match Transition(s.core, target, info)
    case None => End(s, t)
    case Some(c) => (if phase.Some? then Go(s, t, phase.value) else End(s, t)).(core := c)
  }

  function DoAdvance(s: System, t: TaskId): System
    requires t in s.tasks
  {
    match s.tasks[t]
    case AutoInitialising => Try(s, t, INITIALIZING, None, Some(AutoReady))
    case AutoReady => Try(s, t, READY, None, Some(Checking))
    case Checking => if s.core.state == READY || s.core.state == BUSY then Go(s, t, Entering) else End(s, t)
    case Entering => Try(s, t, BUSY, None, Some(Inside))
    case Inside => s
    case Failing(info) =>
      // A refused transition raises inside the except clause; the finally clause still runs.
      (match Transition(s.core, ERROR, Some(info))
       case None => Go(s, t, Leaving)
       case Some(c) => Go(s, t, Leaving).(core := c))
    case Leaving => if s.core.state == BUSY then Go(s, t, Releasing) else End(s, t)
    case Releasing => Try(s, t, READY, None, None)
    case Starting => Try(s, t, READY, None, None)
  }

  function Apply(s: System, target: State, info: Option<string>): System {
    match Transition(s.core, target, info)
    case None => s
    case Some(c) => s.(core := c)
  }

  function Step(s: System, a: Action): System {
    match a
    case Arrive(t) =>
      if t in s.tasks then s
      else Go(s, t, if s.core.state == UNINITIALIZED then AutoInitialising else Checking)
    case Advance(t) => if t in s.tasks then DoAdvance(s, t) else s
    case FinishBody(t, error) =>
      if t in s.tasks && s.tasks[t] == Inside
      then Go(s, t, if error.Some? then Failing(error.value) else Leaving) else s
    case GiveUp(t) =>
      // Inside the body this is FinishBody; after a failed body the finally clause still runs.
      if t !in s.tasks || s.tasks[t] == Inside then s
      else if s.tasks[t].Failing? then Go(s, t, Leaving)
      else End(s, t)
    case Initialize(t) =>
      if t in s.tasks then s else Try(s, t, INITIALIZING, None, Some(Starting))
    case MarkError(info) => Apply(s, ERROR, Some(info))
    case BeginTermination => Apply(s, TERMINATING, None)
    case CompleteTermination => Apply(s, TERMINATED, None)
    case Recover => if s.core.state == ERROR then Apply(s, READY, None) else s
  }

  function Run(actions: seq<Action>): System {
    if actions == [] then System(INITIAL, map[])
    else Step(Run(actions[..|actions| - 1]), actions[|actions| - 1])
  }

  // ----- at most one body -----------------------------------------------------------

  /** A coroutine in this phase may move the manager to READY by itself. */
  predicate Owns(p: Phase) {
    p == AutoReady || p == Inside || p.Failing? || p == Leaving || p == Releasing || p == Starting
  }

  predicate NobodyOwns(s: System) {
    forall t :: t in s.tasks ==> !Owns(s.tasks[t])
  }

  /** `recover` is not called while an operation or an initialisation is in flight. */
  predicate Disciplined(actions: seq<Action>) {
    forall i :: 0 <= i < |actions| && actions[i] == Recover ==> NobodyOwns(Run(actions[..i]))
  }

  predicate Initialises(p: Phase) {
    p == AutoReady || p == Starting
  }

  ghost predicate Exclusive(s: System) {
    && (forall t, u :: t in s.tasks && u in s.tasks && Owns(s.tasks[t]) && Owns(s.tasks[u]) ==> t == u)
    && (s.core.state in {UNINITIALIZED, READY} ==> NobodyOwns(s))
    && (s.core.state == BUSY ==> forall t :: t in s.tasks ==> !Initialises(s.tasks[t]))
    && ErrorExact(s.core)
  }

  lemma ExclusiveTry(s: System, t: TaskId, target: State, phase: Option<Phase>)
    requires Exclusive(s) && t in s.tasks
    requires target == READY ==> Owns(s.tasks[t]) && (phase.Some? ==> !Owns(phase.value))
    requires target == BUSY ==> phase == Some(Inside)
    requires target == INITIALIZING ==> phase.Some? && Initialises(phase.value)
    requires target in {READY, BUSY, INITIALIZING}
    ensures Exclusive(Try(s, t, target, None, phase))
  {
  }

  lemma ExclusiveAdvance(s: System, t: TaskId)
    requires Exclusive(s) && t in s.tasks
    ensures Exclusive(DoAdvance(s, t))
  {
    match s.tasks[t]
    case AutoInitialising => ExclusiveTry(s, t, INITIALIZING, Some(AutoReady));
    case AutoReady => ExclusiveTry(s, t, READY, Some(Checking));
    case Entering => ExclusiveTry(s, t, BUSY, Some(Inside));
    case Releasing => ExclusiveTry(s, t, READY, None);
    case Starting => ExclusiveTry(s, t, READY, None);
    case _ =>
  }

  lemma ExclusiveStep(s: System, a: Action)
    requires Exclusive(s) && (a == Recover ==> NobodyOwns(s))
    ensures Exclusive(Step(s, a))
  {
    hide DoAdvance;
    if a.Advance? && a.t in s.tasks {
      ExclusiveAdvance(s, a.t);
    }
  }

  lemma {:induction false} AlwaysExclusive(actions: seq<Action>)
    requires Disciplined(actions)
    ensures Exclusive(Run(actions))
  {
    if actions != [] {
      var n := |actions| - 1;
      assert forall i :: 0 <= i < n ==> actions[..n][i] == actions[i] && actions[..n][..i] == actions[..i];
      AlwaysExclusive(actions[..n]);
      assert actions[n] == Recover ==> NobodyOwns(Run(actions[..n]));
      ExclusiveStep(Run(actions[..n]), actions[n]);
    }
  }

  /** Over every interleaving, no two tasks are inside the body of an operation together. */
  lemma AtMostOneBody(actions: seq<Action>, t: TaskId, u: TaskId)
    requires Disciplined(actions)
    requires t in Run(actions).tasks && Run(actions).tasks[t] == Inside
    requires u in Run(actions).tasks && Run(actions).tasks[u] == Inside
    ensures t == u
  {
    AlwaysExclusive(actions);
  }

  /** One operation enters a fresh backend, initialising it on the way. */
  lemma FirstOperationEnters() returns (actions: seq<Action>)
    ensures Run(actions) == System(Core(BUSY, None), map[0 := Inside])
  {
    var a1 := [Arrive(0)];
    assert Run([]) == System(INITIAL, map[]);
    hide Run;
    RunSnoc([], Arrive(0));
    assert [] + [Arrive(0)] == a1;
    assert Run(a1) == System(INITIAL, map[0 := AutoInitialising]);
    var a2 := a1 + [Advance(0)];
    RunSnoc(a1, Advance(0));
    assert Run(a2) == System(Core(INITIALIZING, None), map[0 := AutoReady]);
    var a3 := a2 + [Advance(0)];
    RunSnoc(a2, Advance(0));
    assert Run(a3) == System(Core(READY, None), map[0 := Checking]);
    var a4 := a3 + [Advance(0)];
    RunSnoc(a3, Advance(0));
    RunSnoc(a4, Advance(0));
    actions := a4 + [Advance(0)];
  }

  /** An initialisation that marks the error and raises leaves nothing in flight: recovering from
      it is disciplined, and safe. */
  lemma FailedInitialisationRecovers(info: string)
    ensures var failed := [Initialize(0), MarkError(info), GiveUp(0)];
      && Run(failed).core.state == ERROR && NobodyOwns(Run(failed)) && RecoveryIsSafe(Run(failed))
      && Disciplined(failed + [Recover])
      && Run(failed + [Recover]) == System(Core(READY, None), map[])
  {
    var failed := [Initialize(0), MarkError(info), GiveUp(0)];
    FailedInitialisation(info);
    hide Run, RecoveryIsSafe;
    assert forall i :: 0 <= i < |failed| ==> failed[i] != Recover;
    assert Disciplined(failed);
    RecoveryIsSafeIff(failed);
    RunSnoc(failed, Recover);
    assert (failed + [Recover])[..3] == failed;
  }

  lemma FailedInitialisation(info: string)
    ensures var s := Run([Initialize(0), MarkError(info), GiveUp(0)]);
      s.core.state == ERROR && s.tasks == map[]
  {
    var a1, a2 := [Initialize(0)], [Initialize(0), MarkError(info)];
    assert Run([]) == System(INITIAL, map[]);
    hide Run;
    RunSnoc([], Initialize(0));
    assert [] + [Initialize(0)] == a1;
    assert Run(a1) == System(Core(INITIALIZING, None), map[0 := Starting]);
    RunSnoc(a1, MarkError(info));
    assert a1 + [MarkError(info)] == a2;
    assert Run(a2).core.state == ERROR && Run(a2).tasks == map[0 := Starting];
    RunSnoc(a2, GiveUp(0));
    assert a2 + [GiveUp(0)] == [Initialize(0), MarkError(info), GiveUp(0)];
    assert map[0 := Starting] - {0} == map[];
  }

  /** Another operation enters a backend that is READY. */
  lemma AnotherOperationEnters(before: seq<Action>, tasks: map<TaskId, Phase>) returns (actions: seq<Action>)
    requires Run(before) == System(Core(READY, None), tasks) && 1 !in tasks
    ensures Run(actions) == System(Core(BUSY, None), tasks[1 := Inside])
  {
    hide Run;
    var a1 := before + [Arrive(1)];
    RunSnoc(before, Arrive(1));
    assert Run(a1) == System(Core(READY, None), tasks[1 := Checking]);
    var a2 := a1 + [Advance(1)];
    RunSnoc(a1, Advance(1));
    assert Run(a2) == System(Core(READY, None), tasks[1 := Entering]);
    RunSnoc(a2, Advance(1));
    actions := a2 + [Advance(1)];
  }

  /** Without the discipline it fails: a recovery while an operation is still in flight lets
      a second operation in. */
  lemma RecoveryInFlightBreaksExclusion() returns (actions: seq<Action>)
    ensures Run(actions).tasks == map[0 := Inside, 1 := Inside]
  {
    var a := FirstOperationEnters();
    hide Run;
    var b := a + [MarkError("x")];
    RunSnoc(a, MarkError("x"));
    var c := b + [Recover];
    RunSnoc(b, Recover);
    actions := AnotherOperationEnters(c, map[0 := Inside]);
  }

  lemma RunSnoc(actions: seq<Action>, a: Action)
    ensures Run(actions + [a]) == Step(Run(actions), a)
  {
    assert (actions + [a])[..|actions|] == actions;
  }

  function RunFrom(s: System, actions: seq<Action>): System
    decreases |actions|
  {
    if actions == [] then s else RunFrom(Step(s, actions[0]), actions[1..])
  }

  lemma {:induction false} RunConcat(a: seq<Action>, b: seq<Action>)
    ensures Run(a + b) == RunFrom(Run(a), b)
    decreases |b|
  {
    if b == [] {
      assert a + b == a;
    } else {
      assert (a + [b[0]])[..|a|] == a;
      assert a + b == (a + [b[0]]) + b[1..];
      RunConcat(a + [b[0]], b[1..]);
    }
  }

  // ----- exactly when a recovery is safe --------------------------------------------

  predicate InsideAt(s: System, t: TaskId) {
    t in s.tasks && s.tasks[t] == Inside
  }

  /** No two operations are inside together. */
  ghost predicate OneInside(s: System) {
    forall t, u :: InsideAt(s, t) && InsideAt(s, u) ==> t == u
  }

  /** `more` keeps the discipline, starting from `s`. */
  predicate DisciplinedFrom(s: System, more: seq<Action>)
    decreases |more|
  {
    more == [] || ((more[0] == Recover ==> NobodyOwns(s)) && DisciplinedFrom(Step(s, more[0]), more[1..]))
  }

  lemma {:induction false} ExclusiveFrom(s: System, more: seq<Action>)
    requires Exclusive(s) && DisciplinedFrom(s, more)
    ensures Exclusive(RunFrom(s, more))
    decreases |more|
  {
    if more != [] {
      hide Exclusive, Step;
      ExclusiveStep(s, more[0]);
      ExclusiveFrom(Step(s, more[0]), more[1..]);
    }
  }

  /** After the recovery, every continuation that keeps the discipline keeps at most one
      operation inside. */
  ghost predicate RecoveryIsSafe(s: System) {
    forall more :: DisciplinedFrom(Step(s, Recover), more) ==> OneInside(RunFrom(Step(s, Recover), more))
  }

  /** A continuation without recoveries of its own always keeps the discipline. */
  predicate NoRecover(more: seq<Action>) {
    forall i :: 0 <= i < |more| ==> more[i] != Recover
  }

  lemma {:induction false} NoRecoverIsDisciplined(s: System, more: seq<Action>)
    requires NoRecover(more)
    ensures DisciplinedFrom(s, more)
    decreases |more|
  {
    if more != [] {
      assert more[0] != Recover;
      assert forall i :: 0 <= i < |more[1..]| ==> more[1..][i] == more[i + 1];
      NoRecoverIsDisciplined(Step(s, more[0]), more[1..]);
    }
  }

  lemma {:induction false} RunFromConcat(s: System, a: seq<Action>, b: seq<Action>)
    ensures RunFrom(s, a + b) == RunFrom(RunFrom(s, a), b)
    decreases |a|
  {
    if a == [] {
      assert a + b == b;
    } else {
      assert (a + b)[0] == a[0] && (a + b)[1..] == a[1..] + b;
      RunFromConcat(Step(s, a[0]), a[1..], b);
    }
  }

  /** `s` can reach `t` without a recovery. */
  ghost predicate Reaches(s: System, t: System) {
    exists more :: NoRecover(more) && RunFrom(s, more) == t
  }

  lemma ReachesStep(s: System, a: Action)
    requires a != Recover
    ensures Reaches(s, Step(s, a))
  {
    assert RunFrom(Step(s, a), [a][1..]) == Step(s, a);
    assert RunFrom(s, [a]) == Step(s, a) && NoRecover([a]);
  }

  lemma ReachesThen(s: System, t: System, u: System)
    requires Reaches(s, t) && Reaches(t, u)
    ensures Reaches(s, u)
  {
    var a :| NoRecover(a) && RunFrom(s, a) == t;
    var b :| NoRecover(b) && RunFrom(t, b) == u;
    RunFromConcat(s, a, b);
    assert NoRecover(a + b);
  }

  lemma Advances(s: System, t: TaskId, u: System)
    requires Reaches(s, u) && t in u.tasks
    ensures Reaches(s, DoAdvance(u, t))
  {
    ReachesStep(u, Advance(t));
    ReachesThen(s, u, Step(u, Advance(t)));
  }

  /** A READY manager lets any new operation in. */
  lemma Enters(s: System, u: TaskId, at: System)
    requires Reaches(s, at) && at.core.state == READY && u !in at.tasks
    ensures Reaches(s, System(Core(BUSY, None), at.tasks[u := Inside]))
  {
    var a1 := Go(at, u, Checking);
    var a2 := Go(at, u, Entering);
    var a3 := System(Core(BUSY, None), at.tasks[u := Inside]);
    ReachesStep(at, Arrive(u));
    assert Step(at, Arrive(u)) == a1;
    ReachesThen(s, at, a1);
    Advances(s, u, a1);
    assert DoAdvance(a1, u) == a2 by {
      assert a1.tasks[u := Entering] == a2.tasks;
    }
    Advances(s, u, a2);
    assert DoAdvance(a2, u) == a3 by {
      assert a2.tasks[u := Inside] == a3.tasks;
    }
  }

  /** Two different operations are inside. */
  predicate TwoInside(s: System, t: TaskId, u: TaskId) {
    t != u && InsideAt(s, t) && InsideAt(s, u)
  }

  ghost predicate CanBreak(s: System) {
    exists w, t, u :: Reaches(s, w) && TwoInside(w, t, u)
  }

  /** With one inside and the manager READY, another one enters. */
  lemma SecondEnters(s: System, at: System, t: TaskId, u: TaskId)
    requires Reaches(s, at) && at.core.state == READY && InsideAt(at, t) && u !in at.tasks
    ensures CanBreak(s)
  {
    Enters(s, u, at);
    var w := System(Core(BUSY, None), at.tasks[u := Inside]);
    assert TwoInside(w, t, u);
  }

  lemma InsideBreaks(s: System, t: TaskId, u: TaskId)
    requires s.core.state == READY && InsideAt(s, t) && u !in s.tasks
    ensures CanBreak(s)
  {
    ReachesSelf(s);
    SecondEnters(s, s, t, u);
  }

  lemma ReachesSelf(s: System)
    ensures Reaches(s, s)
  {
    assert NoRecover([]) && RunFrom(s, []) == s;
  }

  /** A task that moves the manager from BUSY to READY does so over the operation that entered
      in the meantime. */
  lemma ReleaserBreaks(s: System, at: System, t: TaskId, u: TaskId, v: TaskId)
    requires Reaches(s, at) && at.core.state == BUSY && InsideAt(at, u) && u != t && v != u && v != t
    requires t in at.tasks && at.tasks[t] in {AutoReady, Releasing, Starting} && v !in at.tasks
    ensures CanBreak(s)
  {
    Advances(s, t, at);
    SecondEnters(s, DoAdvance(at, t), u, v);
  }

  lemma OwnerBreaks(s: System, t: TaskId, u: TaskId, v: TaskId)
    requires s.core.state == READY && t in s.tasks && s.tasks[t] in {AutoReady, Releasing, Starting}
    requires u !in s.tasks && v !in s.tasks && u != v
    ensures CanBreak(s)
  {
    ReachesSelf(s);
    Enters(s, u, s);
    ReleaserBreaks(s, System(Core(BUSY, None), s.tasks[u := Inside]), t, u, v);
  }

  lemma LeaverBreaks(s: System, at: System, t: TaskId, u: TaskId, v: TaskId)
    requires Reaches(s, at) && at.core.state == READY && t in at.tasks && at.tasks[t] == Leaving
    requires u !in at.tasks && v !in at.tasks && u != v
    ensures CanBreak(s)
  {
    Enters(s, u, at);
    var busy := System(Core(BUSY, None), at.tasks[u := Inside]);
    Advances(s, t, busy);
    assert DoAdvance(busy, t) == Go(busy, t, Releasing);
    ReleaserBreaks(s, Go(busy, t, Releasing), t, u, v);
  }

  /** An operation enters and is about to release. */
  lemma EntersAndReleases(s: System, u: TaskId)
    requires s.core.state == READY && u !in s.tasks
    ensures Reaches(s, System(Core(BUSY, None), s.tasks[u := Releasing]))
  {
    ReachesSelf(s);
    Enters(s, u, s);
    var a := System(Core(BUSY, None), s.tasks[u := Inside]);
    var b := System(Core(BUSY, None), s.tasks[u := Leaving]);
    assert Step(a, FinishBody(u, None)) == b by {
      assert a.tasks[u := Leaving] == b.tasks;
    }
    ReachesStep(a, FinishBody(u, None));
    hide Reaches;
    ReachesThen(s, a, b);
    Advances(s, u, b);
    assert b.tasks[u := Releasing] == s.tasks[u := Releasing];
  }

  /** A task whose body failed puts the manager in ERROR, from where an operation that is just
      releasing takes it back to READY; then the failed task is leaving. */
  lemma FailingBreaks(s: System, t: TaskId, u: TaskId, v: TaskId)
    requires s.core.state == READY && t in s.tasks && s.tasks[t].Failing? && u !in s.tasks && v !in s.tasks && u != v
    ensures CanBreak(s)
  {
    EntersAndReleases(s, u);
    var c := System(Core(BUSY, None), s.tasks[u := Releasing]);
    var d := DoAdvance(c, t);
    Advances(s, t, c);
    assert d.core.state == ERROR && d.tasks == c.tasks[t := Leaving];
    var e := DoAdvance(d, u);
    Advances(s, u, d);
    assert e.core.state == READY && e.tasks == d.tasks - {u};
    hide DoAdvance, Reaches, CanBreak;
    LeaverBreaks(s, e, t, u, v);
  }

  lemma {:induction false} BoundOf(ids: set<TaskId>) returns (n: TaskId)
    ensures forall t :: t in ids ==> t < n
    decreases |ids|
  {
    if ids == {} {
      n := 0;
    } else {
      var t: TaskId := AnyOf(ids);
      var m := BoundOf(ids - {t});
      n := if m > t then m else t + 1;
      assert forall x :: x in ids ==> x == t || x in ids - {t};
    }
  }

  ghost function AnyOf(ids: set<TaskId>): (t: TaskId)
    requires ids != {}
    ensures t in ids
  {
    var t :| t in ids;
    t
  }

  /** Whatever its phase, a task in flight makes a recovery unsafe. */
  lemma InFlightBreaks(s: System, t: TaskId)
    requires s.core.state == READY && t in s.tasks && Owns(s.tasks[t])
    ensures CanBreak(s)
  {
    var n := BoundOf(s.tasks.Keys);
    assert n !in s.tasks.Keys && n + 1 !in s.tasks.Keys;
    if s.tasks[t] in {AutoReady, Releasing, Starting} {
      OwnerBreaks(s, t, n, n + 1);
    } else if s.tasks[t] == Inside {
      InsideBreaks(s, t, n);
    } else if s.tasks[t] == Leaving {
      ReachesSelf(s);
      LeaverBreaks(s, s, t, n, n + 1);
    } else {
      FailingBreaks(s, t, n, n + 1);
    }
  }

  /** After every disciplined run that ends in ERROR, a recovery is safe exactly when no
      operation and no initialisation is in flight. */
  lemma RecoveryIsSafeIff(actions: seq<Action>)
    requires Disciplined(actions) && Run(actions).core.state == ERROR
    ensures RecoveryIsSafe(Run(actions)) <==> NobodyOwns(Run(actions))
  {
    hide Run, DoAdvance, Reaches;
    AlwaysExclusive(actions);
    var s := Run(actions);
    var r := Step(s, Recover);
    assert r.tasks == s.tasks && r.core.state == READY;
    if NobodyOwns(s) {
      ExclusiveStep(s, Recover);
      forall more | DisciplinedFrom(r, more) ensures OneInside(RunFrom(r, more)) {
        ExclusiveFrom(r, more);
        ExclusiveIsOneInside(RunFrom(r, more));
      }
    } else {
      var t :| t in s.tasks && Owns(s.tasks[t]);
      InFlightBreaks(r, t);
      var w, a, b :| Reaches(r, w) && TwoInside(w, a, b);
      BreaksSomewhere(r, w, a, b);
    }
  }

  lemma ExclusiveIsOneInside(s: System)
    requires Exclusive(s)
    ensures OneInside(s)
  {
  }

  lemma BreaksSomewhere(r: System, w: System, a: TaskId, b: TaskId)
    requires Reaches(r, w) && TwoInside(w, a, b)
    ensures exists more :: DisciplinedFrom(r, more) && !OneInside(RunFrom(r, more))
  {
    var more :| NoRecover(more) && RunFrom(r, more) == w;
    NoRecoverIsDisciplined(r, more);
    assert InsideAt(w, a) && InsideAt(w, b);
    assert !OneInside(RunFrom(r, more));
  }

  // ----- one operation by itself ----------------------------------------------------

  /** From READY an operation enters, and leaves READY behind it when its body succeeds, or ERROR
      with its message, or "Unknown error" for an empty one, when the body fails. */
  lemma OperationFromReady(s: System, t: TaskId, error: Option<string>)
    requires t !in s.tasks && s.core.state == READY
    ensures RunFrom(s, [Arrive(t), Advance(t), Advance(t)]) == System(Core(BUSY, None), s.tasks[t := Inside])
    ensures RunFrom(System(Core(BUSY, None), s.tasks[t := Inside]), [FinishBody(t, error), Advance(t), Advance(t)]) ==
      System(match error
             case None => Core(READY, None)
             case Some(info) => Core(ERROR, Some(if info == "" then "Unknown error" else info)),
             s.tasks)
  {
    var inside := System(Core(BUSY, None), s.tasks[t := Inside]);
    ThreeSteps(s, Arrive(t), Advance(t), Advance(t));
    Replaced(s.tasks, t, Checking, Entering);
    Replaced(s.tasks, t, Entering, Inside);
    assert Step(Go(s, t, Checking), Advance(t)) == Go(s, t, Entering);
    assert Step(Go(s, t, Entering), Advance(t)) == inside;
    hide RunFrom;
    ThreeSteps(inside, FinishBody(t, error), Advance(t), Advance(t));
    match error {
      case None =>
        Replaced(s.tasks, t, Inside, Leaving);
        Replaced(s.tasks, t, Leaving, Releasing);
        Replaced(s.tasks, t, Releasing, Releasing);
      case Some(info) =>
        Replaced(s.tasks, t, Inside, Failing(info));
        Replaced(s.tasks, t, Failing(info), Leaving);
        Replaced(s.tasks, t, Leaving, Leaving);
    }
  }

  lemma ThreeSteps(s: System, a: Action, b: Action, c: Action)
    ensures RunFrom(s, [a, b, c]) == Step(Step(Step(s, a), b), c)
    ensures RunFrom(s, [a, b]) == Step(Step(s, a), b)
  {
    hide Step;
    var s1 := Step(s, a);
    var s2 := Step(s1, b);
    assert [a, b, c][1..] == [b, c] && [b, c][1..] == [c] && [a, b][1..] == [b];
    assert RunFrom(s2, [c]) == RunFrom(Step(s2, c), []);
    assert RunFrom(s1, [b]) == RunFrom(s2, []);
    assert RunFrom(s1, [b, c]) == RunFrom(s2, [c]);
  }

  /** In UNINITIALIZED an operation initialises the manager first; in BUSY it is refused on
      entering, and in every other state before that, and nothing changes. */
  lemma OperationElsewhere(s: System, t: TaskId)
    requires t !in s.tasks
    ensures s.core.state == UNINITIALIZED ==>
      RunFrom(s, [Arrive(t), Advance(t), Advance(t)]) == System(Core(READY, None), s.tasks[t := Checking])
    ensures s.core.state == BUSY ==> RunFrom(s, [Arrive(t), Advance(t), Advance(t)]) == s
    ensures s.core.state in {INITIALIZING, ERROR, TERMINATING, TERMINATED} ==> RunFrom(s, [Arrive(t), Advance(t)]) == s
  {
    ThreeSteps(s, Arrive(t), Advance(t), Advance(t));
    var arrived := Step(s, Arrive(t));
    Replaced(s.tasks, t, arrived.tasks[t], if s.core.state == UNINITIALIZED then AutoReady else Entering);
    if s.core.state == UNINITIALIZED {
      assert DoAdvance(arrived, t) == System(Core(INITIALIZING, None), s.tasks[t := AutoReady]);
      assert DoAdvance(System(Core(INITIALIZING, None), s.tasks[t := AutoReady]), t) ==
             System(Core(READY, None), s.tasks[t := Checking]) by {
        Replaced(s.tasks, t, AutoReady, Checking);
      }
    } else if s.core.state == BUSY {
      assert DoAdvance(arrived, t) == Go(s, t, Entering);
      Replaced(s.tasks, t, Entering, Entering);
      assert DoAdvance(Go(s, t, Entering), t) == s;
    } else if s.core.state != READY {
      assert DoAdvance(arrived, t) == s;
    }
  }

  lemma Replaced(tasks: map<TaskId, Phase>, t: TaskId, p: Phase, q: Phase)
    requires t !in tasks
    ensures tasks[t := p] - {t} == tasks
    ensures tasks[t := p][t := q] == tasks[t := q]
  {
  }

  /** What the calls from outside do: each moves the manager from some states and leaves it alone
      in all others, and none touches the coroutines in flight. */
  lemma CallsMove(s: System, info: string)
    ensures Step(s, Recover) == s.(core := if s.core.state == ERROR then Core(READY, None) else s.core)
    ensures Step(s, MarkError(info)) ==
      s.(core := if s.core.state in {INITIALIZING, READY, BUSY, TERMINATING}
                 then Core(ERROR, Some(if info == "" then "Unknown error" else info)) else s.core)
    ensures Step(s, BeginTermination) ==
      s.(core := if s.core.state in {INITIALIZING, READY, BUSY, ERROR} then Core(TERMINATING, None) else s.core)
    ensures Step(s, CompleteTermination) ==
      s.(core := if s.core.state in {UNINITIALIZED, TERMINATING} then Core(TERMINATED, None) else s.core)
  {
  }

  /** A coroutine that ends at an await leaves the manager's state as it is, but one whose body
      has failed still goes through its finally clause, which releases a manager that is BUSY. */
  lemma GivingUp(s: System, t: TaskId)
    requires t in s.tasks && s.tasks[t] != Inside
    ensures Step(s, GiveUp(t)).core == s.core
    ensures s.tasks[t].Failing? ==>
      RunFrom(s, [GiveUp(t), Advance(t)]) ==
      if s.core.state == BUSY then s.(tasks := s.tasks[t := Releasing]) else s.(tasks := s.tasks - {t})
    ensures !s.tasks[t].Failing? ==> Step(s, GiveUp(t)).tasks == s.tasks - {t}
  {
    ThreeSteps(s, GiveUp(t), Advance(t), Advance(t));
    if s.tasks[t].Failing? {
      var left := s.tasks[t := Leaving];
      assert left[t := Releasing] == s.tasks[t := Releasing] && left - {t} == s.tasks - {t};
      assert Step(s, GiveUp(t)) == s.(tasks := left);
    }
  }

  // ----- the trace of states --------------------------------------------------------

  /** Every step stays in the same state or follows the table, and nothing leaves TERMINATED. */
  lemma StepsFollowTable(s: System, a: Action)
    ensures var t := Step(s, a);
      && (t.core.state == s.core.state || t.core.state in ValidTargets(s.core.state))
      && (s.core.state == TERMINATED ==> t.core == s.core)
  {
  }

  lemma {:induction false} TerminatedIsFinal(actions: seq<Action>, more: seq<Action>)
    requires Run(actions).core.state == TERMINATED
    ensures Run(actions + more).core == Run(actions).core
  {
    RunConcat(actions, more);
    TerminatedStays(Run(actions), more);
  }

  lemma {:induction false} TerminatedStays(s: System, more: seq<Action>)
    requires s.core.state == TERMINATED
    ensures RunFrom(s, more).core == s.core
    decreases |more|
  {
    if more != [] {
      StepsFollowTable(s, more[0]);
      TerminatedStays(Step(s, more[0]), more[1..]);
    }
  }

  /** Over every interleaving, recoveries in flight included, error information is present
      exactly in ERROR. */
  lemma {:induction false} ErrorInfoExactlyInError(actions: seq<Action>)
    ensures ErrorExact(Run(actions).core)
  {
    if actions != [] {
      var n := |actions| - 1;
      ErrorInfoExactlyInError(actions[..n]);
      ErrorStep(Run(actions[..n]), actions[n]);
    }
  }

  lemma ErrorStep(s: System, a: Action)
    requires ErrorExact(s.core)
    ensures ErrorExact(Step(s, a).core)
  {
  }

  // ----- the object -----------------------------------------------------------------

  /** A cleanup callback: its identity, and whether it raises. */
  datatype Callback = Callback(id: nat, raises: bool)

  class LifecycleManager {
    var state: State
    var errorInfo: Option<string>
    var cleanupCallbacks: seq<Callback>
    /** The callbacks that have been called, in order. */
    ghost var called: seq<Callback>

    function View(): Core
      reads this
    {
      Core(state, errorInfo)
    }

    constructor ()
      ensures View() == INITIAL && cleanupCallbacks == [] && called == []
    {
      state, errorInfo := UNINITIALIZED, None;
      cleanupCallbacks, called := [], [];
    }

    method TransitionTo(target: State, info: Option<string>) returns (ok: bool)
      modifies this`state, this`errorInfo
      ensures ok <==> Transition(old(View()), target, info).Some?
      ensures ok <==> (old(state), target) in {
        (UNINITIALIZED, INITIALIZING), (UNINITIALIZED, TERMINATED),
        (INITIALIZING, READY), (INITIALIZING, ERROR), (INITIALIZING, TERMINATING),
        (READY, BUSY), (READY, ERROR), (READY, TERMINATING),
        (BUSY, READY), (BUSY, ERROR), (BUSY, TERMINATING),
        (ERROR, READY), (ERROR, TERMINATING),
        (TERMINATING, TERMINATED), (TERMINATING, ERROR)}
      ensures ok ==> state == target
      ensures ok ==>
        errorInfo == if target != ERROR then None
                     else if info == None || info == Some("") then Some("Unknown error") else info
      ensures !ok ==> state == old(state) && errorInfo == old(errorInfo)
      ensures View() == if ok then Transition(old(View()), target, info).value else old(View())
      ensures old(ErrorExact(View())) ==> ErrorExact(View())
    {
      if target !in ValidTargets(state) {
        return false;
      }
      state := target;
      if target == ERROR {
        errorInfo := if info.Some? && info.value != "" then info else Some("Unknown error");
      } else {
        errorInfo := None;
      }
      return true;
    }

    method AddCleanupCallback(c: Callback)
      modifies this`cleanupCallbacks
      ensures cleanupCallbacks == old(cleanupCallbacks) + [c]
    {
      cleanupCallbacks := cleanupCallbacks + [c];
    }

    /** Every registered callback is called exactly once, in order, whatever the others raise;
        a later cleanup calls none of them again. */
    method Cleanup()
      modifies this`cleanupCallbacks, this`called
      ensures called == old(called) + old(cleanupCallbacks) && cleanupCallbacks == []
    {
      var i := 0;
      while i < |cleanupCallbacks|
        invariant 0 <= i <= |cleanupCallbacks| && cleanupCallbacks == old(cleanupCallbacks)
        invariant called == old(called) + cleanupCallbacks[..i]
      {
        called := called + [cleanupCallbacks[i]];
        i := i + 1;
      }
      assert cleanupCallbacks[..i] == cleanupCallbacks;
      cleanupCallbacks := [];
    }

    /** The callbacks run even when the final transition is refused. */
    method CompleteTermination() returns (ok: bool)
      modifies this
      ensures called == old(called) + old(cleanupCallbacks) && cleanupCallbacks == []
      ensures ok <==> old(state) in {UNINITIALIZED, TERMINATING}
      ensures View() == if ok then Core(TERMINATED, None) else old(View())
    {
      Cleanup();
      ok := TransitionTo(TERMINATED, None);
    }

    method Recover() returns (ok: bool)
      modifies this`state, this`errorInfo
      ensures ok <==> old(state) == ERROR
      ensures View() == if ok then Core(READY, None) else old(View())
    {
      if state != ERROR {
        return false;
      }
      ok := TransitionTo(READY, None);
    }
  }
}
