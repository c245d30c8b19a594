/**
  The `sys.monitoring` host of PEP 669 as far as the backend uses it: global events, local
  events per code object, and locations disabled by a callback until the next restart.
 */
module Monitoring {
  /** A code object.  `id` is its identity, which events and disabled locations belong to;
      `value` is what Python compares, so that two code objects with one value are equal, as
      when one source is compiled twice.  `lineAt[offset]` is the line of an offset. */
  datatype Code = Code(file: string, value: int, id: int, lineAt: seq<nat>)
  {
    function Line(offset: nat): nat {
      if offset < |lineAt| then lineAt[offset] else 0
    }
  }

  datatype Event = LINE | CALL | PY_START | PY_RETURN | INSTRUCTION

  datatype Place = Place(event: Event, code: Code, offset: nat)

  function EventsOf(locals: map<Code, set<Event>>, code: Code): set<Event> {
    if code in locals then locals[code] else {}
  }

  function WithEvents(locals: map<Code, set<Event>>, codes: set<Code>, events: set<Event>): (r: map<Code, set<Event>>)
    ensures forall c :: EventsOf(r, c) == if c in codes then events else EventsOf(locals, c)
  {
    locals + map c | c in codes :: events
  }

  datatype Host = Host(globals: set<Event>, locals: map<Code, set<Event>>, disabled: set<Place>, restarts: nat)
  {
    function Local(code: Code): set<Event> {
      EventsOf(locals, code)
    }

    predicate Delivers(p: Place) {
      (p.event in globals || p.event in Local(p.code)) && p !in disabled
    }

    function SetEvents(events: set<Event>): Host {
      this.(globals := events)
    }

    function SetLocalEvents(codes: set<Code>, events: set<Event>): Host {
      this.(locals := WithEvents(locals, codes, events))
    }

    function Disable(p: Place): Host {
      this.(disabled := disabled + {p})
    }

    function RestartEvents(): Host {
      this.(disabled := {}, restarts := restarts + 1)
    }
  }
}

/**
  The backend as a state machine: one step for each API call and each thing the debuggee
  does, with the callbacks it triggers.
 */
module SparseTracer {
  import opened Wrappers
  import opened Conditions
  import opened Monitoring
  import Recency

  predicate HasEqual(known: set<Code>, code: Code) {
    exists d :: d in known && d.value == code.value
  }

  /** Adding to a Python set: an equal element that is already there stays. */
  function WithCode(known: set<Code>, code: Code): set<Code> {
    if HasEqual(known, code) then known else known + {code}
  }

  datatype Mode = StepIn | StepOver | StepOut | Continue

  function ModeOf(mode: string): Mode {
    if mode == "STEP_IN" then StepIn
    else if mode == "STEP_OVER" then StepOver
    else if mode == "STEP_OUT" then StepOut
    else Continue
  }

  /** A `user_line` call. */
  datatype Stop = Stop(code: Code, offset: nat)

  datatype Stats = Stats(
    lineCallbacks: nat, lineHits: nat, lineDisabled: nat, conditionSkips: nat,
    pyStartCallbacks: nat, pyReturnCallbacks: nat)

  datatype State = State(
    host: Host,
    breakpoints: map<string, set<nat>>,
    conditions: map<(string, nat), string>,
    registry: map<string, set<Code>>,
    mode: Mode,
    stepCode: Option<Code>,
    stats: Stats,
    stops: seq<Stop>)
  {
    predicate IsBreakpoint(file: string, line: nat) {
      file in breakpoints && line in breakpoints[file]
    }

    /** The registry holds this very code object. */
    predicate Registered(code: Code) {
      code.file in registry && code in registry[code.file]
    }

    /** The registry holds an equal code object. */
    predicate KnowsEqual(code: Code) {
      code.file in registry && HasEqual(registry[code.file], code)
    }
  }

  /** What happens next: the debuggee enters a code object, reaches a line (with what each
      condition would evaluate to there) or returns; or the adapter calls the backend. */
  datatype Input =
    | Enter(code: Code)
    | Line(code: Code, offset: nat, verdict: string -> Verdict)
    | Return(code: Code, offset: nat)
    | UpdateBreakpoints(file: string, lines: set<nat>)
    | SetConditions(file: string, line: nat, expression: Option<string>)
    | SetStepping(mode: string)
    | CaptureStepContext(stepCode: Option<Code>)
    | UpdateFunctionBreakpoints(names: set<string>)

  const STEPPING_EVENTS := {LINE, PY_START, PY_RETURN}
  const RETURN_EVENTS := {PY_START, PY_RETURN}

  /** Right after `install`. */
  const INSTALLED := State(Host({PY_START}, map[], {}, 0), map[], map[], map[], Continue, None,
                           Stats(0, 0, 0, 0, 0, 0), [])

  // ----- API calls ------------------------------------------------------------------

  function Known(s: State, file: string): set<Code> {
    if file in s.registry then s.registry[file] else {}
  }

  function ApplyLocalEvents(s: State, file: string): State {
    s.(host := s.host.SetLocalEvents(Known(s, file), if file in s.breakpoints then {LINE} else {}))
  }

  function OnUpdateBreakpoints(s: State, file: string, lines: set<nat>): State {
    var t :=
      if lines != {} then s.(breakpoints := s.breakpoints[file := lines])
      else s.(breakpoints := s.breakpoints - {file},
              conditions := map k | k in s.conditions && k.0 != file :: s.conditions[k]);
    var u := ApplyLocalEvents(t, file);
    u.(host := u.host.RestartEvents())
  }

  function OnSetConditions(s: State, file: string, line: nat, expression: Option<string>): State {
    if expression.Some? && expression.value != ""
    then s.(conditions := s.conditions[(file, line) := expression.value])
    else s.(conditions := s.conditions - {(file, line)})
  }

  /** All codes known for files that have breakpoints. */
  function KnownWithBreakpoints(s: State): set<Code> {
    set f, c | f in s.breakpoints && f in s.registry && c in s.registry[f] :: c
  }

  function OnSetStepping(s: State, mode: string): State {
    match ModeOf(mode)
    case StepIn => s.(mode := StepIn, host := s.host.SetEvents(STEPPING_EVENTS))
    case StepOver =>
      var h := s.host.SetEvents(RETURN_EVENTS);
      s.(mode := StepOver,
         host := if s.stepCode.Some? then h.SetLocalEvents({s.stepCode.value}, {LINE}) else h)
    case StepOut =>
      var h := s.host.SetEvents(RETURN_EVENTS);
      s.(mode := StepOut,
         host := if s.stepCode.Some? then h.SetLocalEvents({s.stepCode.value}, {}) else h)
    case Continue =>
      var h := s.host.SetEvents({PY_START}).SetLocalEvents(KnownWithBreakpoints(s), {LINE});
      s.(mode := Continue, stepCode := None, host := h.RestartEvents())
  }

  function OnUpdateFunctionBreakpoints(s: State, names: set<string>): State {
    if names != {} then s.(host := s.host.SetEvents(s.host.globals + {CALL}))
    else if s.mode == Continue then s.(host := s.host.SetEvents(s.host.globals - {CALL}))
    else s
  }

  // ----- callbacks: the new state, and whether DISABLE is returned ------------------

  function OnLine(s: State, code: Code, offset: nat, verdict: string -> Verdict): (State, bool) {
    var line := code.Line(offset);
    var t := s.(stats := s.stats.(lineCallbacks := s.stats.lineCallbacks + 1));
    if !t.IsBreakpoint(code.file, line) && t.mode == Continue then
      (t.(stats := t.stats.(lineDisabled := t.stats.lineDisabled + 1)), true)
    else if t.IsBreakpoint(code.file, line) && (code.file, line) in t.conditions
            && !verdict(t.conditions[(code.file, line)]).Stops() then
      (t.(stats := t.stats.(conditionSkips := t.stats.conditionSkips + 1)), false)
    else
      (t.(stats := t.stats.(lineHits := t.stats.lineHits + 1), stops := t.stops + [Stop(code, offset)]), false)
  }

  function OnPyStart(s: State, code: Code): (State, bool) {
    var t := s.(stats := s.stats.(pyStartCallbacks := s.stats.pyStartCallbacks + 1),
                registry := s.registry[code.file := WithCode(Known(s, code.file), code)]);
    (if code.file in t.breakpoints then t.(host := t.host.SetLocalEvents({code}, {LINE})) else t, true)
  }

  function OnPyReturn(s: State): (State, bool) {
    var t := s.(stats := s.stats.(pyReturnCallbacks := s.stats.pyReturnCallbacks + 1));
    if t.mode == Continue then (t, true)
    else if t.mode == StepIn then (t, false)
    else (t.(mode := StepIn, stepCode := None, host := t.host.SetEvents(STEPPING_EVENTS)), false)
  }

  /** The host calls back when the event is delivered, and disables the place on DISABLE. */
  function Fire(s: State, p: Place, called: (State, bool)): State {
    if !s.host.Delivers(p) then s
    else if called.1 then called.0.(host := called.0.host.Disable(p))
    else called.0
  }

  function Step(s: State, i: Input): State {
    match i
    case Enter(code) => Fire(s, Place(PY_START, code, 0), OnPyStart(s, code))
    case Line(code, offset, verdict) => Fire(s, Place(LINE, code, offset), OnLine(s, code, offset, verdict))
    case Return(code, offset) => Fire(s, Place(PY_RETURN, code, offset), OnPyReturn(s))
    case UpdateBreakpoints(file, lines) => OnUpdateBreakpoints(s, file, lines)
    case SetConditions(file, line, expression) => OnSetConditions(s, file, line, expression)
    case SetStepping(mode) => OnSetStepping(s, mode)
    case CaptureStepContext(stepCode) => s.(stepCode := stepCode)
    case UpdateFunctionBreakpoints(names) => OnUpdateFunctionBreakpoints(s, names)
  }

  function Run(inputs: seq<Input>): State {
    if inputs == [] then INSTALLED else Step(Run(inputs[..|inputs| - 1]), inputs[|inputs| - 1])
  }

  // ----- breakpoints stay armed -----------------------------------------------------

  /** Code objects whose LINE events a STEP_OUT switched off and nothing has restored: only
      the code objects in the registry are restored by later calls. */
  function NextMuted(s: State, muted: set<Code>, i: Input): set<Code> {
    match i
    case Enter(code) =>
      if s.host.Delivers(Place(PY_START, code, 0)) && code.file in s.breakpoints then muted - {code} else muted
    case UpdateBreakpoints(file, _) => muted - Known(s, file)
    case SetStepping(mode) =>
      (match ModeOf(mode)
       case StepIn => muted
       case StepOver => if s.stepCode.Some? then muted - {s.stepCode.value} else muted
       case StepOut => if s.stepCode.Some? then muted + {s.stepCode.value} else muted
       case Continue => muted - KnownWithBreakpoints(s))
    case _ => muted
  }

  function Muted(inputs: seq<Input>): set<Code> {
    if inputs == [] then {}
    else
      var n := |inputs| - 1;
      NextMuted(Run(inputs[..n]), Muted(inputs[..n]), inputs[n])
  }

  /** Code objects that got LINE events of their own: started while their file had
      breakpoints, or stepped over, and not stepped out of since. */
  function NextLit(s: State, lit: set<Code>, i: Input): set<Code> {
    match i
    case Enter(code) =>
      if s.host.Delivers(Place(PY_START, code, 0)) && code.file in s.breakpoints then lit + {code} else lit
    case SetStepping(mode) =>
      if s.stepCode.None? then lit
      else if ModeOf(mode) == StepOver then lit + {s.stepCode.value}
      else if ModeOf(mode) == StepOut then lit - {s.stepCode.value}
      else lit
    case _ => lit
  }

  function Lit(inputs: seq<Input>): set<Code> {
    if inputs == [] then {}
    else
      var n := |inputs| - 1;
      NextLit(Run(inputs[..n]), Lit(inputs[..n]), inputs[n])
  }

  /** Global events are those of the mode; in CONTINUE nothing the registry reaches is muted. */
  ghost predicate ModesFit(s: State, muted: set<Code>) {
    && PY_START in s.host.globals
    && (s.mode == StepIn <==> LINE in s.host.globals)
    && (s.mode == Continue ==>
          PY_RETURN !in s.host.globals && forall c :: c in muted && s.Registered(c) ==> c.file !in s.breakpoints)
    && (s.mode != Continue ==> PY_RETURN in s.host.globals)
    && (forall f, c :: f in s.registry && c in s.registry[f] ==> c.file == f)
  }

  /** The registry reaches one of several equal code objects; the others have LINE events
      exactly when they got them on their own. */
  ghost predicate LinesFit(s: State, muted: set<Code>, lit: set<Code>) {
    && (forall c :: PY_RETURN !in EventsOf(s.host.locals, c))
    && (forall c :: s.Registered(c) && c.file in s.breakpoints ==>
          (LINE in EventsOf(s.host.locals, c) <==> c !in muted))
    && (forall c :: !s.Registered(c) ==> (LINE in EventsOf(s.host.locals, c) <==> c in lit))
  }

  /** Nothing that is still wanted is disabled. */
  ghost predicate DisabledFit(s: State) {
    forall p :: p in s.host.disabled ==>
      && p.event != PY_RETURN
      && (p.event == LINE ==> !s.IsBreakpoint(p.code.file, p.code.Line(p.offset)))
      && (p.event == PY_START ==> s.KnowsEqual(p.code))
  }

  /** What every reachable state keeps. */
  ghost predicate Armed(s: State, muted: set<Code>, lit: set<Code>) {
    ModesFit(s, muted) && LinesFit(s, muted, lit) && DisabledFit(s)
  }

  lemma RegisteringOne(known: set<Code>, c: Code, code: Code)
    ensures code in WithCode(known, c) <==> code in known || (code == c && !HasEqual(known, code))
    ensures HasEqual(WithCode(known, c), code) <==> HasEqual(known, code) || c.value == code.value
  {
    if !HasEqual(known, c) {
      assert c in WithCode(known, c);
    }
  }

  /** What starting `code` does, when it is observed. */
  lemma Started(s: State, code: Code)
    requires s.host.Delivers(Place(PY_START, code, 0))
    ensures var u := Step(s, Enter(code));
      && (forall c :: u.Registered(c) <==> s.Registered(c) || (c == code && !s.KnowsEqual(code)))
      && (forall c :: u.KnowsEqual(c) <==> s.KnowsEqual(c) || (c.file == code.file && c.value == code.value))
      && (forall c :: EventsOf(u.host.locals, c) ==
                      if c == code && code.file in s.breakpoints then {LINE} else EventsOf(s.host.locals, c))
      && u.host.disabled == s.host.disabled + {Place(PY_START, code, 0)}
      && u.host.globals == s.host.globals && u.mode == s.mode
      && u.breakpoints == s.breakpoints && u.conditions == s.conditions
      && (forall f, c :: f in u.registry && c in u.registry[f] ==>
            (f in s.registry && c in s.registry[f]) || (f == code.file && c == code))
  {
    var known := Known(s, code.file);
    var t := OnPyStart(s, code).0;
    assert Step(s, Enter(code)) == t.(host := t.host.Disable(Place(PY_START, code, 0)));
    assert t.registry == s.registry[code.file := WithCode(known, code)];
    forall c: Code
      ensures code.file == c.file ==> (c in WithCode(known, code) <==> c in known || (c == code && !HasEqual(known, c)))
      ensures code.file == c.file ==> (HasEqual(WithCode(known, code), c) <==> HasEqual(known, c) || code.value == c.value)
    {
      RegisteringOne(known, code, c);
    }
  }

  lemma StartedModes(s: State, muted: set<Code>, code: Code)
    requires ModesFit(s, muted) && s.host.Delivers(Place(PY_START, code, 0))
    ensures ModesFit(Step(s, Enter(code)), NextMuted(s, muted, Enter(code)))
  {
    Started(s, code);
    hide Step, State.KnowsEqual, State.Registered;
  }

  lemma StartedLines(s: State, muted: set<Code>, lit: set<Code>, code: Code)
    requires LinesFit(s, muted, lit) && s.host.Delivers(Place(PY_START, code, 0))
    requires s.Registered(code) ==> s.KnowsEqual(code)
    ensures var i := Enter(code); LinesFit(Step(s, i), NextMuted(s, muted, i), NextLit(s, lit, i))
  {
    Started(s, code);
    hide Step, State.KnowsEqual, State.Registered, EventsOf;
  }

  lemma StartedDisabled(s: State, code: Code)
    requires DisabledFit(s) && s.host.Delivers(Place(PY_START, code, 0))
    ensures DisabledFit(Step(s, Enter(code)))
  {
    Started(s, code);
    hide Step, State.KnowsEqual, State.Registered;
  }

  lemma ArmedEnter(s: State, muted: set<Code>, lit: set<Code>, i: Input)
    requires Armed(s, muted, lit) && i.Enter?
    ensures Armed(Step(s, i), NextMuted(s, muted, i), NextLit(s, lit, i))
  {
    hide ModesFit, LinesFit, DisabledFit;
    if s.host.Delivers(Place(PY_START, i.code, 0)) {
      StartedModes(s, muted, i.code);
      StartedLines(s, muted, lit, i.code);
      StartedDisabled(s, i.code);
    }
  }

  lemma ArmedLine(s: State, muted: set<Code>, lit: set<Code>, i: Input)
    requires Armed(s, muted, lit) && i.Line?
    ensures Armed(Step(s, i), NextMuted(s, muted, i), NextLit(s, lit, i))
  {
  }

  lemma ArmedReturn(s: State, muted: set<Code>, lit: set<Code>, i: Input)
    requires Armed(s, muted, lit) && i.Return?
    ensures Armed(Step(s, i), NextMuted(s, muted, i), NextLit(s, lit, i))
  {
  }

  lemma Updated(s: State, i: Input)
    requires i.UpdateBreakpoints?
    ensures var u := Step(s, i);
      && u.registry == s.registry && u.mode == s.mode && u.host.globals == s.host.globals && u.host.disabled == {}
      && (forall f :: f != i.file ==> (f in u.breakpoints <==> f in s.breakpoints))
      && (forall c :: EventsOf(u.host.locals, c) ==
                      if c in Known(s, i.file) then (if i.file in u.breakpoints then {LINE} else {})
                      else EventsOf(s.host.locals, c))
  {
  }

  lemma KnownIsRegistered(s: State, file: string, c: Code)
    requires forall f, c :: f in s.registry && c in s.registry[f] ==> c.file == f
    ensures c in Known(s, file) <==> s.Registered(c) && c.file == file
  {
  }

  lemma UpdatedModes(s: State, muted: set<Code>, i: Input)
    requires ModesFit(s, muted) && i.UpdateBreakpoints?
    ensures ModesFit(Step(s, i), muted - Known(s, i.file))
  {
    Updated(s, i);
    var u := Step(s, i);
    hide Step, Known, EventsOf;
    forall c | u.mode == Continue && c in muted - Known(s, i.file) && u.Registered(c)
      ensures c.file !in u.breakpoints
    {
      KnownIsRegistered(s, i.file, c);
      assert s.Registered(c);
    }
  }

  lemma UpdatedLine(s: State, muted: set<Code>, lit: set<Code>, i: Input, c: Code)
    requires LinesFit(s, muted, lit) && i.UpdateBreakpoints?
    requires forall f, c :: f in s.registry && c in s.registry[f] ==> c.file == f
    ensures var u := Step(s, i);
      && PY_RETURN !in EventsOf(u.host.locals, c)
      && (u.Registered(c) && c.file in u.breakpoints ==>
            (LINE in EventsOf(u.host.locals, c) <==> c !in muted - Known(s, i.file)))
      && (!u.Registered(c) ==> (LINE in EventsOf(u.host.locals, c) <==> c in lit))
  {
    Updated(s, i);
    KnownIsRegistered(s, i.file, c);
    var u := Step(s, i);
    hide Step, Known, EventsOf;
    assert u.Registered(c) <==> s.Registered(c);
  }

  lemma UpdatedLines(s: State, muted: set<Code>, lit: set<Code>, i: Input)
    requires LinesFit(s, muted, lit) && i.UpdateBreakpoints?
    requires forall f, c :: f in s.registry && c in s.registry[f] ==> c.file == f
    ensures LinesFit(Step(s, i), muted - Known(s, i.file), lit)
  {
    hide Step, Known, EventsOf, State.Registered;
    forall c
      ensures var u := Step(s, i);
        && PY_RETURN !in EventsOf(u.host.locals, c)
        && (u.Registered(c) && c.file in u.breakpoints ==>
              (LINE in EventsOf(u.host.locals, c) <==> c !in muted - Known(s, i.file)))
        && (!u.Registered(c) ==> (LINE in EventsOf(u.host.locals, c) <==> c in lit))
    {
      UpdatedLine(s, muted, lit, i, c);
    }
  }

  lemma ArmedUpdate(s: State, muted: set<Code>, lit: set<Code>, i: Input)
    requires Armed(s, muted, lit) && i.UpdateBreakpoints?
    ensures Armed(Step(s, i), NextMuted(s, muted, i), NextLit(s, lit, i))
  {
    UpdatedModes(s, muted, i);
    UpdatedLines(s, muted, lit, i);
    Updated(s, i);
    hide Step, LinesFit, Known, EventsOf;
  }

  lemma ArmedStepping(s: State, muted: set<Code>, lit: set<Code>, i: Input)
    requires Armed(s, muted, lit) && i.SetStepping? && ModeOf(i.mode) != Continue
    ensures Armed(Step(s, i), NextMuted(s, muted, i), NextLit(s, lit, i))
  {
    assert Step(s, i) == OnSetStepping(s, i.mode);
  }

  lemma ArmedContinue(s: State, muted: set<Code>, lit: set<Code>, i: Input)
    requires Armed(s, muted, lit) && i.SetStepping? && ModeOf(i.mode) == Continue
    ensures Armed(Step(s, i), NextMuted(s, muted, i), NextLit(s, lit, i))
  {
    assert Step(s, i) == OnSetStepping(s, i.mode);
  }

  lemma ArmedOther(s: State, muted: set<Code>, lit: set<Code>, i: Input)
    requires Armed(s, muted, lit) && (i.SetConditions? || i.CaptureStepContext? || i.UpdateFunctionBreakpoints?)
    ensures Armed(Step(s, i), NextMuted(s, muted, i), NextLit(s, lit, i))
  {
    var u := Step(s, i);
    assert u.registry == s.registry && u.mode == s.mode && u.breakpoints == s.breakpoints;
    assert u.host == s.host.SetEvents(u.host.globals);
    assert forall e :: e in {LINE, PY_START, PY_RETURN} ==> (e in u.host.globals <==> e in s.host.globals);
    hide Step, EventsOf;
    assert forall c :: u.Registered(c) <==> s.Registered(c);
    assert forall c :: u.KnowsEqual(c) <==> s.KnowsEqual(c);
  }

  lemma ArmedStep(s: State, muted: set<Code>, lit: set<Code>, i: Input)
    requires Armed(s, muted, lit)
    ensures Armed(Step(s, i), NextMuted(s, muted, i), NextLit(s, lit, i))
  {
    hide Step, NextMuted, NextLit, Armed;
    match i
    case Enter(_) => ArmedEnter(s, muted, lit, i);
    case Line(_, _, _) => ArmedLine(s, muted, lit, i);
    case Return(_, _) => ArmedReturn(s, muted, lit, i);
    case UpdateBreakpoints(_, _) => ArmedUpdate(s, muted, lit, i);
    case SetStepping(mode) =>
      if ModeOf(mode) == Continue {
        ArmedContinue(s, muted, lit, i);
      } else {
        ArmedStepping(s, muted, lit, i);
      }
    case _ => ArmedOther(s, muted, lit, i);
  }

  /** Every reachable state is armed, over all runs with stepping commands included. */
  lemma {:induction false} AlwaysArmed(inputs: seq<Input>)
    ensures Armed(Run(inputs), Muted(inputs), Lit(inputs))
  {
    if inputs != [] {
      var n := |inputs| - 1;
      hide Armed, NextMuted, NextLit, Step;
      AlwaysArmed(inputs[..n]);
      ArmedStep(Run(inputs[..n]), Muted(inputs[..n]), Lit(inputs[..n]), inputs[n]);
    }
  }

  /** In every reachable state, a breakpoint line whose condition lets it stop does stop exactly
      when lines are observed globally (STEP_IN), or its code object is the one registered and
      no STEP_OUT has muted it, or it is another and got LINE events on its own; in CONTINUE
      mode a registered one always stops. */
  lemma BreakpointLineStops(inputs: seq<Input>, code: Code, offset: nat, verdict: string -> Verdict)
    requires Run(inputs).IsBreakpoint(code.file, code.Line(offset))
    requires (code.file, code.Line(offset)) in Run(inputs).conditions ==>
      verdict(Run(inputs).conditions[(code.file, code.Line(offset))]).Stops()
    ensures var s := Run(inputs);
      var armed := s.mode == StepIn || if s.Registered(code) then code !in Muted(inputs) else code in Lit(inputs);
      && (Step(s, Line(code, offset, verdict)).stops == s.stops + (if armed then [Stop(code, offset)] else []))
      && (s.mode == Continue && s.Registered(code) ==> armed)
  {
    hide Run, Muted, Lit;
    AlwaysArmed(inputs);
    var s := Run(inputs);
    assert Place(LINE, code, offset) !in s.host.disabled;
    assert s.Registered(code) ==> (LINE in EventsOf(s.host.locals, code) <==> code !in Muted(inputs));
    assert !s.Registered(code) ==> (LINE in EventsOf(s.host.locals, code) <==> code in Lit(inputs));
  }

  // ----- what each event does, whatever the state -----------------------------------

  /** A line reached stops exactly when LINE is observed, globally or for its code object, at a
      place not disabled, and it is a breakpoint line whose condition, if any, passed or could
      not be evaluated, or any other line while stepping.  It is disabled exactly when it is
      neither a breakpoint line nor reached while stepping. */
  lemma LineStopsIff(s: State, code: Code, offset: nat, verdict: string -> Verdict)
    ensures var t := Step(s, Line(code, offset, verdict));
      var line := code.Line(offset);
      var observed := (LINE in s.host.globals || LINE in EventsOf(s.host.locals, code))
                      && Place(LINE, code, offset) !in s.host.disabled;
      var breakpoint := code.file in s.breakpoints && line in s.breakpoints[code.file];
      var passes := (code.file, line) !in s.conditions
                    || verdict(s.conditions[(code.file, line)]).passed
                    || verdict(s.conditions[(code.file, line)]).fallback;
      && (observed && (if breakpoint then passes else s.mode != Continue) <==>
          t.stops == s.stops + [Stop(code, offset)])
      && (!(observed && (if breakpoint then passes else s.mode != Continue)) <==> t.stops == s.stops)
      && t.host.disabled == s.host.disabled
         + (if observed && !breakpoint && s.mode == Continue then {Place(LINE, code, offset)} else {})
      && t.host.globals == s.host.globals && t.host.locals == s.host.locals && t.mode == s.mode
      && t.breakpoints == s.breakpoints && t.conditions == s.conditions && t.registry == s.registry
  {
    assert |s.stops + [Stop(code, offset)]| == |s.stops| + 1;
  }

  /** Each line callback adds to exactly one of three counters: hits when it stops, disabled when
      it disables, skips when a condition kept a breakpoint line from stopping. */
  lemma LineCountsExactly(s: State, code: Code, offset: nat, verdict: string -> Verdict)
    requires s.host.Delivers(Place(LINE, code, offset))
    ensures var t := Step(s, Line(code, offset, verdict));
      var stopped := t.stops != s.stops;
      var disabled := Place(LINE, code, offset) in t.host.disabled;
      && t.stats.lineCallbacks == s.stats.lineCallbacks + 1
      && t.stats.lineHits == s.stats.lineHits + (if stopped then 1 else 0)
      && t.stats.lineDisabled == s.stats.lineDisabled + (if disabled then 1 else 0)
      && t.stats.conditionSkips == s.stats.conditionSkips + (if stopped || disabled then 0 else 1)
      && !(stopped && disabled)
  {
    assert |s.stops + [Stop(code, offset)]| == |s.stops| + 1;
  }

  /** An update replaces the lines of its file, or drops the file when there are none. */
  lemma BreakpointsAfter(s: State, i: Input)
    ensures Step(s, i).breakpoints ==
      if i.UpdateBreakpoints? && i.lines == {} then s.breakpoints - {i.file}
      else if i.UpdateBreakpoints? then s.breakpoints[i.file := i.lines]
      else s.breakpoints
  {
    hide WithEvents, KnownWithBreakpoints;
  }

  /** An absent or empty expression drops a condition, and an update without lines those of its
      file; other conditions stay, also those of lines no longer among the breakpoints. */
  lemma ConditionsAfter(s: State, i: Input, file: string, line: nat)
    ensures var t := Step(s, i);
      if i.SetConditions? && (i.file, i.line) == (file, line) then
        if i.expression == None || i.expression == Some("") then (file, line) !in t.conditions
        else (file, line) in t.conditions && t.conditions[(file, line)] == i.expression.value
      else if i.UpdateBreakpoints? && i.lines == {} && i.file == file then (file, line) !in t.conditions
      else
        && ((file, line) in t.conditions <==> (file, line) in s.conditions)
        && ((file, line) in s.conditions ==> t.conditions[(file, line)] == s.conditions[(file, line)])
  {
    hide WithEvents, KnownWithBreakpoints;
  }

  /** The code stepped in is what was captured last, until CONTINUE or a return ends the step. */
  lemma StepCodeAfter(s: State, i: Input)
    ensures Step(s, i).stepCode ==
      if i.CaptureStepContext? then i.stepCode
      else if i.SetStepping? && i.mode !in {"STEP_IN", "STEP_OVER", "STEP_OUT"} then None
      else if i.Return? && s.host.Delivers(Place(PY_RETURN, i.code, i.offset)) && s.mode in {StepOver, StepOut} then None
      else s.stepCode
  {
    hide WithEvents, KnownWithBreakpoints;
  }

  /** While stepping, every line that is delivered and is not a breakpoint stops, and goes on
      being delivered. */
  lemma SteppingLineStops(s: State, code: Code, offset: nat, verdict: string -> Verdict)
    requires s.mode != Continue && s.host.Delivers(Place(LINE, code, offset))
    requires !s.IsBreakpoint(code.file, code.Line(offset))
    ensures var t := Step(s, Line(code, offset, verdict));
      t.stops == s.stops + [Stop(code, offset)] && t.host == s.host
  {
  }

  /** In every reachable state in STEP_IN, every line reached at a place not disabled stops,
      unless it is a breakpoint line whose condition keeps it from stopping. */
  lemma StepInStops(inputs: seq<Input>, code: Code, offset: nat, verdict: string -> Verdict)
    requires Run(inputs).mode == StepIn && Place(LINE, code, offset) !in Run(inputs).host.disabled
    ensures var s := Run(inputs);
      var line := code.Line(offset);
      var held := code.file in s.breakpoints && line in s.breakpoints[code.file]
                  && (code.file, line) in s.conditions
                  && !verdict(s.conditions[(code.file, line)]).passed
                  && !verdict(s.conditions[(code.file, line)]).fallback;
      Step(s, Line(code, offset, verdict)).stops == s.stops + if held then [] else [Stop(code, offset)]
  {
    hide Run, Muted, Lit;
    AlwaysArmed(inputs);
    LineStopsIff(Run(inputs), code, offset, verdict);
  }

  predicate Restarts(i: Input) {
    i.UpdateBreakpoints? || (i.SetStepping? && i.mode !in {"STEP_IN", "STEP_OVER", "STEP_OUT"})
  }

  /** The location is disabled by reaching it as no breakpoint line in CONTINUE. */
  predicate Disables(s: State, i: Input, code: Code, offset: nat) {
    && i.Line? && i.code == code && i.offset == offset
    && s.mode == Continue && !s.IsBreakpoint(code.file, code.Line(offset))
    && (LINE in s.host.globals || LINE in EventsOf(s.host.locals, code))
  }

  /** Input k disables the location, and events have not been restarted since. */
  predicate DisabledSince(inputs: seq<Input>, k: nat, code: Code, offset: nat) {
    && k < |inputs| && Disables(Run(inputs[..k]), inputs[k], code, offset)
    && forall j :: k < j < |inputs| ==> !Restarts(inputs[j])
  }

  lemma DisabledStep(s: State, i: Input, code: Code, offset: nat)
    ensures Place(LINE, code, offset) in Step(s, i).host.disabled <==>
      !Restarts(i) && (Place(LINE, code, offset) in s.host.disabled || Disables(s, i, code, offset))
  {
    if i.Line? {
      hide Step;
      LineStopsIff(s, i.code, i.offset, i.verdict);
    } else {
      OthersDisableNoLine(s, i, Place(LINE, code, offset));
    }
  }

  lemma OthersDisableNoLine(s: State, i: Input, p: Place)
    requires !i.Line? && p.event == LINE
    ensures p in Step(s, i).host.disabled <==> !Restarts(i) && p in s.host.disabled
  {
    hide WithEvents, KnownWithBreakpoints, OnLine;
  }

  lemma DisabledSinceSnoc(before: seq<Input>, i: Input, k: nat, code: Code, offset: nat)
    ensures DisabledSince(before + [i], k, code, offset) <==>
      if k == |before| then Disables(Run(before), i, code, offset)
      else DisabledSince(before, k, code, offset) && !Restarts(i)
  {
    hide Run, Disables;
    var all := before + [i];
    assert k <= |before| ==> all[..k] == before[..k];
    assert all[|before|] == i && all[..|before|] == before;
    assert before[..|before|] == before;
  }

  lemma {:induction false} DisabledIff(inputs: seq<Input>, code: Code, offset: nat)
    ensures Place(LINE, code, offset) in Run(inputs).host.disabled <==>
      exists k: nat :: DisabledSince(inputs, k, code, offset)
  {
    if inputs != [] {
      var n := |inputs| - 1;
      var before := inputs[..n];
      DisabledIff(before, code, offset);
      DisabledStep(Run(before), inputs[n], code, offset);
      assert Run(inputs) == Step(Run(before), inputs[n]);
      assert inputs == before + [inputs[n]];
      hide Run, Disables, Step, DisabledSince;
      forall k: nat
        ensures DisabledSince(inputs, k, code, offset) <==>
          if k == n then Disables(Run(before), inputs[n], code, offset)
          else DisabledSince(before, k, code, offset) && !Restarts(inputs[n])
      {
        DisabledSinceSnoc(before, inputs[n], k, code, offset);
      }
      if k: nat :| DisabledSince(before, k, code, offset) {
        assert k != n by { NotYet(before, n, code, offset); }
      }
      assert Disables(Run(before), inputs[n], code, offset) ==> DisabledSince(inputs, n, code, offset);
      assert Disables(Run(before), inputs[n], code, offset) ==> !Restarts(inputs[n]) by {
        DisablesIsLine(Run(before), inputs[n], code, offset);
      }
    }
  }

  lemma NotYet(inputs: seq<Input>, k: nat, code: Code, offset: nat)
    requires k >= |inputs|
    ensures !DisabledSince(inputs, k, code, offset)
  {
  }

  lemma DisablesIsLine(s: State, i: Input, code: Code, offset: nat)
    ensures Disables(s, i, code, offset) ==> !Restarts(i)
  {
  }

  /** STEP_IN is documented to make every line fire.  In every reachable state in STEP_IN, a line
      that is not a breakpoint stops exactly when it was not reached in CONTINUE, as no
      breakpoint, since events were last restarted. */
  lemma StepInFiresIff(inputs: seq<Input>, code: Code, offset: nat, verdict: string -> Verdict)
    requires Run(inputs).mode == StepIn && !Run(inputs).IsBreakpoint(code.file, code.Line(offset))
    ensures var s := Run(inputs);
      Step(s, Line(code, offset, verdict)).stops ==
      s.stops + if exists k: nat :: DisabledSince(inputs, k, code, offset) then [] else [Stop(code, offset)]
  {
    hide Run, Muted, Lit, DisabledSince;
    AlwaysArmed(inputs);
    DisabledIff(inputs, code, offset);
    LineStopsIff(Run(inputs), code, offset, verdict);
  }

  /** A file gets a breakpoint, and one of its code objects is entered. */
  lemma EntersWithBreakpoint(code: Code, line: nat)
    ensures var s := Run([UpdateBreakpoints(code.file, {line}), Enter(code)]);
      && s.breakpoints == map[code.file := {line}] && s.mode == Continue && s.stops == []
      && LINE in EventsOf(s.host.locals, code) && s.host.disabled == {Place(PY_START, code, 0)}
  {
    var first := [UpdateBreakpoints(code.file, {line})];
    var both := [UpdateBreakpoints(code.file, {line}), Enter(code)];
    assert first[..0] == [] && both[..1] == first;
    assert Run(first) == OnUpdateBreakpoints(INSTALLED, code.file, {line});
    assert Run(first).breakpoints == map[code.file := {line}];
    assert Run(both) == Step(Run(first), Enter(code));
  }

  lemma RunSnoc(inputs: seq<Input>, i: Input)
    ensures Run(inputs + [i]) == Step(Run(inputs), i)
  {
    assert (inputs + [i])[..|inputs|] == inputs;
    hide Step;
  }

  /** The input that fails: a line passed in CONTINUE beside a breakpoint stays silent when the
      debuggee comes to it again in STEP_IN. */
  lemma StepInMissesSeenLine(code: Code, offset: nat, line: nat, verdict: string -> Verdict)
    requires line != code.Line(offset)
    ensures Run([UpdateBreakpoints(code.file, {line}), Enter(code)]
                + [Line(code, offset, verdict)] + [SetStepping("STEP_IN")] + [Line(code, offset, verdict)]).stops == []
  {
    var a := [UpdateBreakpoints(code.file, {line}), Enter(code)];
    var b := a + [Line(code, offset, verdict)];
    var c := b + [SetStepping("STEP_IN")];
    EntersWithBreakpoint(code, line);
    hide Run, Step, WithEvents;
    RunSnoc(a, Line(code, offset, verdict));
    LineStopsIff(Run(a), code, offset, verdict);
    assert Place(LINE, code, offset) in Run(b).host.disabled && Run(b).stops == [];
    RunSnoc(b, SetStepping("STEP_IN"));
    SteppingCommands(Run(b), "STEP_IN");
    assert Run(c).stops == [] by { StopsStay(Run(b)); }
    RunSnoc(c, Line(code, offset, verdict));
    LineStopsIff(Run(c), code, offset, verdict);
  }

  lemma StopsStay(s: State)
    ensures Step(s, SetStepping("STEP_IN")).stops == s.stops
  {
  }

  /** In every reachable state a return ends STEP_OVER and STEP_OUT: from then on lines are
      observed everywhere, and the next one reached at a place not disabled stops. */
  lemma ReturnEndsStep(inputs: seq<Input>, code: Code, offset: nat)
    requires Run(inputs).mode in {StepOver, StepOut}
    ensures var t := Step(Run(inputs), Return(code, offset));
      && t == Run(inputs + [Return(code, offset)])
      && t.mode == StepIn && t.stepCode == None && t.host.globals == {LINE, PY_START, PY_RETURN}
      && t.stops == Run(inputs).stops && t.host.disabled == Run(inputs).host.disabled
  {
    AlwaysArmed(inputs);
    assert (inputs + [Return(code, offset)])[..|inputs|] == inputs;
    assert Place(PY_RETURN, code, offset) !in Run(inputs).host.disabled;
  }

  /** A return in another mode changes no mode: in CONTINUE it is not even delivered. */
  lemma ReturnKeepsMode(inputs: seq<Input>, code: Code, offset: nat)
    requires Run(inputs).mode in {StepIn, Continue}
    ensures var t := Step(Run(inputs), Return(code, offset));
      t.mode == Run(inputs).mode && t.host == Run(inputs).host
      && t.stats.pyReturnCallbacks ==
         Run(inputs).stats.pyReturnCallbacks + if Run(inputs).mode == StepIn then 1 else 0
  {
    AlwaysArmed(inputs);
    var s := Run(inputs);
    hide Run;
    assert Place(PY_RETURN, code, offset) !in s.host.disabled;
    assert s.mode == Continue ==> !s.host.Delivers(Place(PY_RETURN, code, offset));
  }

  /** What the stepping commands do, by their names: any other name continues. */
  lemma SteppingCommands(s: State, name: string)
    ensures var t := Step(s, SetStepping(name));
      if name == "STEP_IN" then
        t.mode == StepIn && t.host == s.host.(globals := {LINE, PY_START, PY_RETURN}) && t.stepCode == s.stepCode
      else if name == "STEP_OVER" || name == "STEP_OUT" then
        && t.mode == (if name == "STEP_OVER" then StepOver else StepOut) && t.stepCode == s.stepCode
        && t.host.globals == {PY_START, PY_RETURN} && t.host.disabled == s.host.disabled
        && forall c :: EventsOf(t.host.locals, c) ==
             if s.stepCode == Some(c) then (if name == "STEP_OVER" then {LINE} else {}) else EventsOf(s.host.locals, c)
      else
        && t.mode == Continue && t.stepCode == None
        && t.host.globals == {PY_START} && t.host.disabled == {} && t.host.restarts == s.host.restarts + 1
        && forall c :: EventsOf(t.host.locals, c) ==
             if exists f :: f in s.breakpoints && f in s.registry && c in s.registry[f] then {LINE}
             else EventsOf(s.host.locals, c)
  {
    assert Step(s, SetStepping(name)) == OnSetStepping(s, name);
  }

  /** Function breakpoints turn CALL on, or off in CONTINUE only, and touch no other event. */
  lemma FunctionBreakpointsTouchOnlyCall(s: State, names: set<string>)
    ensures var t := Step(s, UpdateFunctionBreakpoints(names));
      && (forall e :: e != CALL ==> (e in t.host.globals <==> e in s.host.globals))
      && (CALL in t.host.globals <==> names != {} || (s.mode != Continue && CALL in s.host.globals))
      && t == s.(host := s.host.(globals := t.host.globals))
  {
  }

  /** A start delivered is counted. */
  lemma StartsCounted(s: State, i: Input)
    ensures Step(s, i).stats.pyStartCallbacks ==
      s.stats.pyStartCallbacks + if i.Enter? && s.host.Delivers(Place(PY_START, i.code, 0)) then 1 else 0
  {
    hide WithEvents, KnownWithBreakpoints;
  }

  /** Events are restarted by an update of breakpoints and by CONTINUE, and by nothing else. */
  lemma RestartsCounted(s: State, i: Input)
    ensures Step(s, i).host.restarts == s.host.restarts + if Restarts(i) then 1 else 0
  {
    hide WithEvents, KnownWithBreakpoints;
    match i
    case Enter(code) => assert OnPyStart(s, code).0.host.restarts == s.host.restarts;
    case Line(code, offset, verdict) => assert OnLine(s, code, offset, verdict).0.host.restarts == s.host.restarts;
    case Return(_, _) => assert OnPyReturn(s).0.host.restarts == s.host.restarts;
    case UpdateBreakpoints(file, lines) => assert OnUpdateBreakpoints(s, file, lines).host.restarts == s.host.restarts + 1;
    case SetStepping(mode) => assert mode !in {"STEP_IN", "STEP_OVER", "STEP_OUT"} <==> ModeOf(mode) == Continue;
    case _ =>
  }

  // ----- the sparse tracer refines a naive one --------------------------------------

  /** A debugger that looks at every line of every code object entered since it started. */
  datatype Naive = Naive(
    breakpoints: map<string, set<nat>>, conditions: map<(string, nat), string>, entered: set<Code>, stops: seq<Stop>)
  {
    predicate StopsAt(code: Code, offset: nat, verdict: string -> Verdict) {
      var line := code.Line(offset);
      && code in entered
      && code.file in breakpoints && line in breakpoints[code.file]
      && ((code.file, line) in conditions ==> verdict(conditions[(code.file, line)]).Stops())
    }
  }

  function NaiveStep(n: Naive, i: Input): Naive {
    match i
    case Enter(code) => n.(entered := n.entered + {code})
    case Line(code, offset, verdict) =>
      if n.StopsAt(code, offset, verdict) then n.(stops := n.stops + [Stop(code, offset)]) else n
    case UpdateBreakpoints(file, lines) =>
      if lines != {} then n.(breakpoints := n.breakpoints[file := lines])
      else n.(breakpoints := n.breakpoints - {file},
              conditions := map k | k in n.conditions && k.0 != file :: n.conditions[k])
    case SetConditions(file, line, expression) =>
      if expression.Some? && expression.value != ""
      then n.(conditions := n.conditions[(file, line) := expression.value])
      else n.(conditions := n.conditions - {(file, line)})
    case _ => n
  }

  function NaiveRun(inputs: seq<Input>): Naive {
    if inputs == [] then Naive(map[], map[], {}, [])
    else NaiveStep(NaiveRun(inputs[..|inputs| - 1]), inputs[|inputs| - 1])
  }

  /** No stepping command other than CONTINUE. */
  predicate Quiet(i: Input) {
    i.SetStepping? ==> ModeOf(i.mode) == Continue
  }

  // Which code objects the sparse scheme can see, by the history alone.

  /** The code object first entered among those of one file that are equal to `code`. */
  function First(inputs: seq<Input>, code: Code): Option<Code> {
    if inputs == [] then None
    else
      var before := First(inputs[..|inputs| - 1], code);
      var i := inputs[|inputs| - 1];
      if before.None? && i.Enter? && i.code.file == code.file && i.code.value == code.value then Some(i.code)
      else before
  }

  /** `code` was entered while its file had breakpoints. */
  predicate EnteredWithBreakpoints(inputs: seq<Input>, code: Code) {
    inputs != []
    && (var before, i := inputs[..|inputs| - 1], inputs[|inputs| - 1];
        EnteredWithBreakpoints(before, code)
        || (i.Enter? && i.code == code && code.file in NaiveRun(before).breakpoints))
  }

  predicate Shown(inputs: seq<Input>, code: Code) {
    First(inputs, code) == Some(code) || EnteredWithBreakpoints(inputs, code)
  }

  /** No line that the naive debugger stops at was reached in a code object out of sight. */
  predicate NothingMissed(inputs: seq<Input>) {
    inputs == []
    || (var before, i := inputs[..|inputs| - 1], inputs[|inputs| - 1];
        && NothingMissed(before)
        && (i.Line? && NaiveRun(before).StopsAt(i.code, i.offset, i.verdict) ==> Shown(before, i.code)))
  }

  /** The registry holds, of all equal code objects of a file, the one first entered. */
  ghost predicate RegistersFirst(s: State, inputs: seq<Input>, code: Code) {
    && (s.Registered(code) <==> First(inputs, code) == Some(code))
    && (s.KnowsEqual(code) <==> First(inputs, code).Some?)
  }

  lemma RegistersFirstStep(inputs: seq<Input>, i: Input, code: Code)
    requires RegistersFirst(Run(inputs), inputs, code)
    requires Armed(Run(inputs), Muted(inputs), Lit(inputs))
    ensures RegistersFirst(Step(Run(inputs), i), inputs + [i], code)
  {
    hide Run, Muted, Lit;
    var s := Run(inputs);
    FirstSnoc(inputs, i, code);
    if i.Enter? {
      if s.host.Delivers(Place(PY_START, i.code, 0)) {
        hide Step, First, State.KnowsEqual, State.Registered, Armed;
        Started(s, i.code);
        if i.code.file == code.file && i.code.value == code.value {
          EqualsTogether(s, i.code, code);
        }
      } else if i.code.file == code.file && i.code.value == code.value {
        assert s.KnowsEqual(i.code);
        EqualsTogether(s, i.code, code);
      }
    } else {
      hide First;
      assert Step(s, i).registry == s.registry;
    }
  }

  lemma EqualsTogether(s: State, c: Code, d: Code)
    requires c.file == d.file && c.value == d.value
    ensures s.KnowsEqual(c) <==> s.KnowsEqual(d)
  {
  }

  lemma FirstSnoc(inputs: seq<Input>, i: Input, code: Code)
    ensures First(inputs + [i], code) ==
      if First(inputs, code).None? && i.Enter? && i.code.file == code.file && i.code.value == code.value
      then Some(i.code) else First(inputs, code)
    ensures EnteredWithBreakpoints(inputs + [i], code) <==>
      EnteredWithBreakpoints(inputs, code)
      || (i.Enter? && i.code == code && code.file in NaiveRun(inputs).breakpoints)
    ensures NaiveRun(inputs + [i]) == NaiveStep(NaiveRun(inputs), i)
    ensures NothingMissed(inputs + [i]) <==>
      NothingMissed(inputs)
      && (i.Line? && NaiveRun(inputs).StopsAt(i.code, i.offset, i.verdict) ==> Shown(inputs, i.code))
  {
    hide NaiveStep;
    assert (inputs + [i])[..|inputs|] == inputs;
  }

  lemma {:induction false} RegistryIsFirst(inputs: seq<Input>, code: Code)
    ensures RegistersFirst(Run(inputs), inputs, code)
  {
    if inputs != [] {
      hide RegistersFirst, Step, Muted, Lit;
      var n := |inputs| - 1;
      RegistryIsFirst(inputs[..n], code);
      AlwaysArmed(inputs[..n]);
      assert inputs == inputs[..n] + [inputs[n]];
      RegistersFirstStep(inputs[..n], inputs[n], code);
    }
  }

  /** In CONTINUE mode the two debuggers agree on everything but the stops, and a code object
      whose start is disabled while its file has breakpoints has got its LINE events. */
  ghost predicate Agrees(s: State, n: Naive, muted: set<Code>, lit: set<Code>) {
    && s.mode == Continue && LINE !in s.host.globals && muted == {}
    && s.breakpoints == n.breakpoints && s.conditions == n.conditions
    && (forall c :: s.Registered(c) || c in lit ==> c in n.entered)
    && (forall c :: Place(PY_START, c, 0) in s.host.disabled && c.file in s.breakpoints ==>
          s.Registered(c) || c in lit)
  }

  lemma AgreesEnter(s: State, n: Naive, lit: set<Code>, i: Input)
    requires Agrees(s, n, {}, lit) && i.Enter?
    ensures Agrees(Step(s, i), NaiveStep(n, i), NextMuted(s, {}, i), NextLit(s, lit, i))
  {
    if s.host.Delivers(Place(PY_START, i.code, 0)) {
      hide Step, EventsOf, State.KnowsEqual, State.Registered;
      Started(s, i.code);
    }
  }

  lemma AgreesLine(s: State, n: Naive, lit: set<Code>, i: Input)
    requires Agrees(s, n, {}, lit) && (i.Line? || i.Return?)
    ensures Agrees(Step(s, i), NaiveStep(n, i), NextMuted(s, {}, i), NextLit(s, lit, i))
  {
    var t := Step(s, i);
    assert t.registry == s.registry && t.breakpoints == s.breakpoints && t.conditions == s.conditions;
    assert t.mode == s.mode && t.host.globals == s.host.globals;
    assert t.host.disabled <= s.host.disabled + {Place(if i.Line? then LINE else PY_RETURN, i.code, i.offset)};
    hide Step;
    assert forall c :: t.Registered(c) <==> s.Registered(c);
  }

  /** Changing breakpoints and CONTINUE restart all events and leave the registry alone. */
  lemma AgreesRestart(s: State, n: Naive, lit: set<Code>, i: Input)
    requires Agrees(s, n, {}, lit) && Quiet(i) && (i.UpdateBreakpoints? || i.SetStepping?)
    ensures Agrees(Step(s, i), NaiveStep(n, i), NextMuted(s, {}, i), NextLit(s, lit, i))
  {
    hide WithEvents, KnownWithBreakpoints;
    var t := Step(s, i);
    assert t.registry == s.registry && t.host.disabled == {};
    assert forall c :: t.Registered(c) <==> s.Registered(c);
  }

  lemma AgreesSetting(s: State, n: Naive, lit: set<Code>, i: Input)
    requires Agrees(s, n, {}, lit)
    requires i.SetConditions? || i.CaptureStepContext? || i.UpdateFunctionBreakpoints?
    ensures Agrees(Step(s, i), NaiveStep(n, i), NextMuted(s, {}, i), NextLit(s, lit, i))
  {
    var t := Step(s, i);
    assert t.registry == s.registry && t.host.disabled == s.host.disabled;
    assert forall c :: t.Registered(c) <==> s.Registered(c);
  }

  lemma {:induction false} AgreesAlways(inputs: seq<Input>)
    requires forall i :: i in inputs ==> Quiet(i)
    ensures Agrees(Run(inputs), NaiveRun(inputs), Muted(inputs), Lit(inputs))
  {
    if inputs != [] {
      hide Agrees, Step, NaiveStep, NextMuted, NextLit;
      var n := |inputs| - 1;
      assert forall j :: j in inputs[..n] ==> j in inputs;
      AgreesAlways(inputs[..n]);
      AgreesStep(Run(inputs[..n]), NaiveRun(inputs[..n]), Muted(inputs[..n]), Lit(inputs[..n]), inputs[n]);
    }
  }

  lemma AgreesStep(s: State, n: Naive, muted: set<Code>, lit: set<Code>, i: Input)
    requires Agrees(s, n, muted, lit) && Quiet(i)
    ensures Agrees(Step(s, i), NaiveStep(n, i), NextMuted(s, muted, i), NextLit(s, lit, i))
  {
    hide Step, NaiveStep, NextMuted, NextLit;
    if i.Enter? {
      AgreesEnter(s, n, lit, i);
    } else if i.Line? || i.Return? {
      AgreesLine(s, n, lit, i);
    } else if i.UpdateBreakpoints? || i.SetStepping? {
      AgreesRestart(s, n, lit, i);
    } else {
      AgreesSetting(s, n, lit, i);
    }
  }

  lemma LitStep(s: State, n: Naive, muted: set<Code>, lit: set<Code>, i: Input, code: Code)
    requires Armed(s, muted, lit) && Agrees(s, n, muted, lit) && Quiet(i) && !s.Registered(code)
    ensures code in NextLit(s, lit, i) <==>
            code in lit || (i.Enter? && i.code == code && code.file in n.breakpoints)
  {
    if i.Enter? && i.code == code && !s.host.Delivers(Place(PY_START, code, 0)) {
      assert Place(PY_START, code, 0) in s.host.disabled;
    }
  }

  lemma {:induction false} LitIsEntered(inputs: seq<Input>, code: Code)
    requires (forall i :: i in inputs ==> Quiet(i)) && First(inputs, code) != Some(code)
    ensures code in Lit(inputs) <==> EnteredWithBreakpoints(inputs, code)
  {
    if inputs != [] {
      hide Agrees, Armed, Step, NaiveStep, NextLit;
      var n := |inputs| - 1;
      assert forall j :: j in inputs[..n] ==> j in inputs;
      assert Quiet(inputs[n]);
      LitIsEntered(inputs[..n], code);
      AgreesAlways(inputs[..n]);
      AlwaysArmed(inputs[..n]);
      RegistryIsFirst(inputs[..n], code);
      LitStep(Run(inputs[..n]), NaiveRun(inputs[..n]), Muted(inputs[..n]), Lit(inputs[..n]), inputs[n], code);
    }
  }

  /** In CONTINUE mode a code object has its LINE events exactly when it was the first entered of
      its equals or was entered while its file had breakpoints. */
  lemma SeenIsShown(inputs: seq<Input>, code: Code)
    requires forall i :: i in inputs ==> Quiet(i)
    ensures Run(inputs).Registered(code) || code in Lit(inputs) <==> Shown(inputs, code)
  {
    hide Run, Lit, First, EnteredWithBreakpoints;
    RegistryIsFirst(inputs, code);
    if First(inputs, code) != Some(code) {
      LitIsEntered(inputs, code);
    }
  }

  lemma StopsTogether(s: State, n: Naive, lit: set<Code>, i: Input)
    requires Armed(s, {}, lit) && Agrees(s, n, {}, lit)
    ensures var stop := i.Line? && n.StopsAt(i.code, i.offset, i.verdict);
      && NaiveStep(n, i).stops == n.stops + (if stop then [Stop(i.code, i.offset)] else [])
      && Step(s, i).stops ==
         s.stops + (if stop && (s.Registered(i.code) || i.code in lit) then [Stop(i.code, i.offset)] else [])
  {
    hide WithEvents, KnownWithBreakpoints;
    if i.Line? {
      assert LINE in EventsOf(s.host.locals, i.code) && s.IsBreakpoint(i.code.file, i.code.Line(i.offset)) ==>
        s.Registered(i.code) || i.code in lit;
      assert s.Registered(i.code) || i.code in lit ==>
        s.IsBreakpoint(i.code.file, i.code.Line(i.offset)) ==> LINE in EventsOf(s.host.locals, i.code);
      assert s.Registered(i.code) || i.code in lit ==> i.code in n.entered;
    }
  }

  /** Every stop missed is missing from the count. */
  lemma {:induction false} MissedStops(inputs: seq<Input>)
    requires forall i :: i in inputs ==> Quiet(i)
    ensures if NothingMissed(inputs) then Run(inputs).stops == NaiveRun(inputs).stops
            else |Run(inputs).stops| < |NaiveRun(inputs).stops|
  {
    if inputs != [] {
      hide Step, NaiveStep, Shown, Armed, Agrees;
      var n := |inputs| - 1;
      var i := inputs[n];
      assert forall j :: j in inputs[..n] ==> j in inputs;
      MissedStops(inputs[..n]);
      AlwaysArmed(inputs[..n]);
      AgreesAlways(inputs[..n]);
      AgreesMuted(Run(inputs[..n]), NaiveRun(inputs[..n]), Muted(inputs[..n]), Lit(inputs[..n]));
      StopsTogether(Run(inputs[..n]), NaiveRun(inputs[..n]), Lit(inputs[..n]), i);
      if i.Line? {
        SeenIsShown(inputs[..n], i.code);
      }
    }
  }

  lemma AgreesMuted(s: State, n: Naive, muted: set<Code>, lit: set<Code>)
    requires Agrees(s, n, muted, lit)
    ensures muted == {}
  {
  }

  /** Over every run in CONTINUE mode the sparse scheme makes exactly the `user_line` calls, in
      order, of a debugger that watches every line, if and only if every line that one stops at
      is reached in a code object that was the first entered of its equals, or was entered
      while its file had breakpoints. */
  lemma SparseRefinesNaiveIff(inputs: seq<Input>)
    requires forall i :: i in inputs ==> Quiet(i)
    ensures Run(inputs).stops == NaiveRun(inputs).stops <==> NothingMissed(inputs)
  {
    MissedStops(inputs);
  }

  /** No two code objects entered are equal and of one file. */
  ghost predicate EntersDistinct(inputs: seq<Input>) {
    forall i, j ::
      i in inputs && j in inputs && i.Enter? && j.Enter? ==>
      i.code.file == j.code.file && i.code.value == j.code.value ==> i.code == j.code
  }

  /** In particular when no two code objects entered are equal. */
  lemma SparseRefinesNaive(inputs: seq<Input>)
    requires (forall i :: i in inputs ==> Quiet(i)) && EntersDistinct(inputs)
    ensures Run(inputs).stops == NaiveRun(inputs).stops
  {
    DistinctMissNothing(inputs);
    MissedStops(inputs);
  }

  lemma {:induction false} DistinctMissNothing(inputs: seq<Input>)
    requires EntersDistinct(inputs)
    ensures NothingMissed(inputs)
  {
    if inputs != [] {
      var n := |inputs| - 1;
      var i := inputs[n];
      assert forall j :: j in inputs[..n] ==> j in inputs;
      DistinctMissNothing(inputs[..n]);
      if i.Line? && NaiveRun(inputs[..n]).StopsAt(i.code, i.offset, i.verdict) {
        FirstIsEntered(inputs[..n], i.code);
      }
    }
  }

  lemma {:induction false} FirstIsEntered(inputs: seq<Input>, code: Code)
    ensures First(inputs, code).Some? ==>
      var d := First(inputs, code).value;
      Enter(d) in inputs && d.file == code.file && d.value == code.value
    ensures code in NaiveRun(inputs).entered ==> First(inputs, code).Some? && Enter(code) in inputs
  {
    if inputs != [] {
      var n := |inputs| - 1;
      FirstIsEntered(inputs[..n], code);
      assert forall j :: j in inputs[..n] ==> j in inputs;
    }
  }

  /** The stop that is missed: of two equal code objects the second is entered before the file
      gets its breakpoint, and the line is reached in it. */
  lemma EqualCodeIsMissed(a: Code, b: Code, offset: nat, verdict: string -> Verdict)
    requires a != b && a.file == b.file && a.value == b.value
    ensures var inputs := [Enter(a), Enter(b), UpdateBreakpoints(b.file, {b.Line(offset)}), Line(b, offset, verdict)];
      !NothingMissed(inputs) && Run(inputs).stops != NaiveRun(inputs).stops
  {
    var setting := UpdateBreakpoints(b.file, {b.Line(offset)});
    var i1, i2 := [Enter(a)], [Enter(a), Enter(b)];
    var i3 := i2 + [setting];
    assert First([], b) == None && !EnteredWithBreakpoints([], b) && NaiveRun([]) == Naive(map[], map[], {}, []);
    hide First, EnteredWithBreakpoints, NaiveRun, NothingMissed, Run;
    FirstSnoc([], Enter(a), b);
    assert [] + [Enter(a)] == i1;
    FirstSnoc(i1, Enter(b), b);
    assert i1 + [Enter(b)] == i2;
    FirstSnoc(i2, setting, b);
    assert NaiveRun(i3).StopsAt(b, offset, verdict) && !Shown(i3, b);
    FirstSnoc(i3, Line(b, offset, verdict), b);
    assert i3 + [Line(b, offset, verdict)] == [Enter(a), Enter(b), setting, Line(b, offset, verdict)];
    MissedStops(i3 + [Line(b, offset, verdict)]);
  }

  // ----- DISABLE is a one-time cost -------------------------------------------------

  /** The places where the debuggee reached a line. */
  function Reached(inputs: seq<Input>): set<Place> {
    if inputs == [] then {}
    else
      var i := inputs[|inputs| - 1];
      Reached(inputs[..|inputs| - 1]) + if i.Line? then {Place(LINE, i.code, i.offset)} else {}
  }

  function DisabledLines(s: State): set<Place> {
    set p | p in s.host.disabled && p.event == LINE
  }

  ghost predicate Counted(s: State, reached: set<Place>) {
    && DisabledLines(s) <= reached
    && s.stats.lineDisabled <= s.host.restarts * |reached| + |DisabledLines(s)|
    && s.stats.lineCallbacks == s.stats.lineHits + s.stats.lineDisabled + s.stats.conditionSkips
    && s.stats.lineHits == |s.stops|
  }

  /** A disabling callback only ever happens at a location that is not disabled. */
  lemma DisablesFreshPlaces(s: State, i: Input)
    ensures Step(s, i).stats.lineDisabled != s.stats.lineDisabled ==>
      && i.Line? && Place(LINE, i.code, i.offset) !in s.host.disabled
      && Step(s, i).host.disabled == s.host.disabled + {Place(LINE, i.code, i.offset)}
      && Step(s, i).stats.lineDisabled == s.stats.lineDisabled + 1
  {
  }

  lemma LineCounters(s: State, i: Input)
    requires i.Line?
    ensures var t := Step(s, i);
      && t.host.restarts == s.host.restarts
      && (t.stats.lineDisabled == s.stats.lineDisabled ==> t.host.disabled == s.host.disabled)
      && t.stats.lineCallbacks - s.stats.lineCallbacks
         == (t.stats.lineHits - s.stats.lineHits) + (t.stats.lineDisabled - s.stats.lineDisabled)
            + (t.stats.conditionSkips - s.stats.conditionSkips)
      && t.stats.lineHits - s.stats.lineHits == |t.stops| - |s.stops|
  {
  }

  lemma BoundGrows(r: nat, a: nat, b: nat)
    requires a <= b
    ensures r * a <= r * b && (r + 1) * a == r * a + a
  {
  }

  lemma CountedLine(s: State, reached: set<Place>, i: Input)
    requires Counted(s, reached) && i.Line?
    ensures Counted(Step(s, i), reached + {Place(LINE, i.code, i.offset)})
  {
    hide Step;
    var p := Place(LINE, i.code, i.offset);
    var t := Step(s, i);
    Recency.SubsetSize(reached, reached + {p});
    BoundGrows(s.host.restarts, |reached|, |reached + {p}|);
    LineCounters(s, i);
    DisablesFreshPlaces(s, i);
    assert DisabledLines(t) == DisabledLines(s) + if t.stats.lineDisabled == s.stats.lineDisabled then {} else {p};
  }

  predicate SameCounters(s: State, t: State) {
    && t.stops == s.stops
    && t.stats.lineCallbacks == s.stats.lineCallbacks && t.stats.lineHits == s.stats.lineHits
    && t.stats.lineDisabled == s.stats.lineDisabled && t.stats.conditionSkips == s.stats.conditionSkips
  }

  lemma CallbackCounters(s: State, i: Input)
    requires i.Enter? || i.Return?
    ensures var t := Step(s, i);
      SameCounters(s, t) && t.host.restarts == s.host.restarts
      && forall p: Place :: p.event == LINE ==> (p in t.host.disabled <==> p in s.host.disabled)
  {
  }

  lemma ApiCounters(s: State, i: Input)
    requires !i.Line? && !i.Enter? && !i.Return?
    ensures var t := Step(s, i);
      SameCounters(s, t)
      && (if t.host.restarts == s.host.restarts then t.host.disabled == s.host.disabled
          else t.host.restarts == s.host.restarts + 1 && t.host.disabled == {})
  {
    hide KnownWithBreakpoints, Known, WithEvents;
  }

  lemma CountedOther(s: State, reached: set<Place>, i: Input)
    requires Counted(s, reached) && !i.Line?
    ensures Counted(Step(s, i), reached)
  {
    hide Step;
    if i.Enter? || i.Return? {
      CallbackCounters(s, i);
      assert DisabledLines(Step(s, i)) == DisabledLines(s);
    } else {
      ApiCounters(s, i);
      assert Step(s, i).host.disabled == {} ==> DisabledLines(Step(s, i)) == {};
    }
    Recency.SubsetSize(DisabledLines(s), reached);
    BoundGrows(s.host.restarts, |reached|, |reached|);
  }

  lemma {:induction false} CountedAlways(inputs: seq<Input>)
    ensures Counted(Run(inputs), Reached(inputs))
  {
    if inputs != [] {
      hide Counted, Step;
      var n := |inputs| - 1;
      CountedAlways(inputs[..n]);
      if inputs[n].Line? {
        CountedLine(Run(inputs[..n]), Reached(inputs[..n]), inputs[n]);
      } else {
        CountedOther(Run(inputs[..n]), Reached(inputs[..n]), inputs[n]);
        assert Reached(inputs[..n]) + {} == Reached(inputs[..n]);
      }
    } else {
      assert DisabledLines(INSTALLED) == {};
    }
  }

  /** Over every run, stepping included: each reached location costs at most one disabling
      callback for each restart and one more, and every LINE callback is counted once. */
  lemma DisableIsOneTimeCost(inputs: seq<Input>)
    ensures var stats := Run(inputs).stats;
      && stats.lineDisabled <= (Run(inputs).host.restarts + 1) * |Reached(inputs)|
      && stats.lineCallbacks == stats.lineHits + stats.lineDisabled + stats.conditionSkips
      && stats.lineHits == |Run(inputs).stops|
  {
    hide Run, Reached, Step;
    CountedAlways(inputs);
    Recency.SubsetSize(DisabledLines(Run(inputs)), Reached(inputs));
    BoundGrows(Run(inputs).host.restarts, |Reached(inputs)|, |Reached(inputs)|);
  }
}
