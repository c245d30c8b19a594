/**
  `SysMonitoringBackend` as the object it is: fields updated in place by API calls and
  callbacks, each method proved against the state machine of `SparseTracer`.
 */
module MonitoringBackend {
  import opened Wrappers
  import opened Conditions
  import opened Monitoring
  import opened SparseTracer

  /** The `sys.monitoring` module. */
  class MonitoringApi {
    var state: Host

    constructor ()
      ensures state == Host({}, map[], {}, 0)
    {
      state := Host({}, map[], {}, 0);
    }

    method SetEvents(events: set<Event>)
      modifies this
      ensures state == old(state).SetEvents(events)
    {
      state := state.(globals := events);
    }

    method SetLocalEvents(code: Code, events: set<Event>)
      modifies this
      ensures state == old(state).SetLocalEvents({code}, events)
    {
      state := state.SetLocalEvents({code}, events);
    }

    method Disable(p: Place)
      modifies this
      ensures state == old(state).Disable(p)
    {
      state := state.(disabled := state.disabled + {p});
    }

    method RestartEvents()
      modifies this
      ensures state == old(state).RestartEvents()
    {
      state := state.(disabled := {}, restarts := state.restarts + 1);
    }
  }

  class SysMonitoringBackend {
    const api: MonitoringApi
    var breakpoints: map<string, set<nat>>
    var conditions: map<(string, nat), string>
    var codeRegistry: map<string, set<Code>>
    var stepMode: Mode
    var stepCode: Option<Code>
    var stats: Stats
    /** The `user_line` calls made on the attached debugger. */
    var userLines: seq<Stop>

    function View(): State
      reads this, api
    {
      State(api.state, breakpoints, conditions, codeRegistry, stepMode, stepCode, stats, userLines)
    }

    /** Construction and `install` into a fresh monitoring module. */
    constructor Install()
      ensures fresh(api) && View() == INSTALLED
    {
      api := new MonitoringApi();
      breakpoints, conditions, codeRegistry := map[], map[], map[];
      stepMode, stepCode := Continue, None;
      stats := Stats(0, 0, 0, 0, 0, 0);
      userLines := [];
      new;
      api.SetEvents({PY_START});
    }

    method ApplyLocalEvents(file: string)
      modifies api
      ensures View() == SparseTracer.ApplyLocalEvents(old(View()), file)
    {
      hide WithEvents;
      ghost var before := api.state;
      if file !in codeRegistry {
        NothingSet(before, {});
        NothingSet(before, {LINE});
        return;
      }
      var target := if file in breakpoints then {LINE} else {};
      var codes := codeRegistry[file];
      var rest := codes;
      NothingSet(before, target);
      assert codes - rest == {};
      while rest != {}
        invariant rest <= codes
        invariant api.state == before.SetLocalEvents(codes - rest, target)
        decreases rest
      {
        var code :| code in rest;
        SetTwice(before, codes - rest, {code}, target);
        assert codes - (rest - {code}) == (codes - rest) + {code};
        api.SetLocalEvents(code, target);
        rest := rest - {code};
      }
      assert codes - {} == codes;
    }

    method UpdateBreakpoints(file: string, lines: set<nat>)
      modifies this, api
      ensures View() == Step(old(View()), Input.UpdateBreakpoints(file, lines))
    {
      if lines != {} {
        breakpoints := breakpoints[file := lines];
      } else {
        breakpoints := breakpoints - {file};
        conditions := map k | k in conditions && k.0 != file :: conditions[k];
      }
      ApplyLocalEvents(file);
      api.RestartEvents();
    }

    method SetConditions(file: string, line: nat, expression: Option<string>)
      modifies this
      ensures View() == Step(old(View()), Input.SetConditions(file, line, expression))
    {
      if expression.Some? && expression.value != "" {
        conditions := conditions[(file, line) := expression.value];
      } else {
        conditions := conditions - {(file, line)};
      }
    }

    method SetStepping(mode: string)
      modifies this, api
      ensures View() == Step(old(View()), Input.SetStepping(mode))
    {
      stepMode := ModeOf(mode);
      if mode == "STEP_IN" {
        api.SetEvents({LINE, PY_START, PY_RETURN});
      } else if mode == "STEP_OVER" {
        api.SetEvents({PY_START, PY_RETURN});
        if stepCode.Some? {
          api.SetLocalEvents(stepCode.value, {LINE});
        }
      } else if mode == "STEP_OUT" {
        api.SetEvents({PY_START, PY_RETURN});
        if stepCode.Some? {
          api.SetLocalEvents(stepCode.value, {});
        }
      } else {
        stepCode := None;
        api.SetEvents({PY_START});
        ApplyAllLocalEvents();
        api.RestartEvents();
      }
    }

    method ApplyAllLocalEvents()
      modifies api
      ensures View() == old(View()).(host := old(api.state).SetLocalEvents(KnownWithBreakpoints(old(View())), {LINE}))
    {
      hide WithEvents, KnownIn;
      ghost var s := View();
      ghost var before := api.state;
      var files := breakpoints.Keys;
      var rest := files;
      KnownInNothing(s);
      NothingSet(before, {LINE});
      assert files - rest == {};
      while rest != {}
        invariant rest <= files
        invariant api.state == before.SetLocalEvents(KnownIn(s, files - rest), {LINE})
        decreases rest
      {
        var file :| file in rest;
        SetTwice(before, KnownIn(s, files - rest), Known(s, file), {LINE});
        KnownInMore(s, files - rest, file);
        assert files - (rest - {file}) == (files - rest) + {file};
        ApplyLocalEvents(file);
        rest := rest - {file};
      }
      assert files - {} == files;
      KnownInAll(s);
    }

    method CaptureStepContext(code: Option<Code>)
      modifies this
      ensures View() == Step(old(View()), Input.CaptureStepContext(code))
    {
      stepCode := code;
    }

    method UpdateFunctionBreakpoints(names: set<string>)
      modifies api
      ensures View() == Step(old(View()), Input.UpdateFunctionBreakpoints(names))
    {
      var current := api.state.globals;
      if names != {} {
        api.SetEvents(current + {CALL});
      } else if stepMode == Continue {
        api.SetEvents(current - {CALL});
      }
    }

    method OnLine(code: Code, offset: nat, verdict: string -> Verdict) returns (disable: bool)
      modifies this
      ensures (View(), disable) == SparseTracer.OnLine(old(View()), code, offset, verdict)
    {
      var line := code.Line(offset);
      stats := stats.(lineCallbacks := stats.lineCallbacks + 1);
      var isBreakpoint := code.file in breakpoints && line in breakpoints[code.file];
      var isStepping := stepMode != Continue;
      if !isBreakpoint && !isStepping {
        stats := stats.(lineDisabled := stats.lineDisabled + 1);
        return true;
      }
      if isBreakpoint {
        if (code.file, line) in conditions {
          var result := verdict(conditions[(code.file, line)]);
          if !result.passed && !result.fallback {
            stats := stats.(conditionSkips := stats.conditionSkips + 1);
            return false;
          }
        }
        stats := stats.(lineHits := stats.lineHits + 1);
        userLines := userLines + [Stop(code, offset)];
        return false;
      }
      stats := stats.(lineHits := stats.lineHits + 1);
      userLines := userLines + [Stop(code, offset)];
      return false;
    }

    method OnPyStart(code: Code) returns (disable: bool)
      modifies this, api
      ensures (View(), disable) == SparseTracer.OnPyStart(old(View()), code)
    {
      stats := stats.(pyStartCallbacks := stats.pyStartCallbacks + 1);
      var known := if code.file in codeRegistry then codeRegistry[code.file] else {};
      codeRegistry := codeRegistry[code.file := WithCode(known, code)];
      if code.file in breakpoints {
        api.SetLocalEvents(code, {LINE});
      }
      return true;
    }

    method OnPyReturn() returns (disable: bool)
      modifies this, api
      ensures (View(), disable) == SparseTracer.OnPyReturn(old(View()))
    {
      stats := stats.(pyReturnCallbacks := stats.pyReturnCallbacks + 1);
      if stepMode == Continue {
        return true;
      }
      if stepMode == StepOver || stepMode == StepOut {
        stepMode := StepIn;
        stepCode := None;
        api.SetEvents({LINE, PY_START, PY_RETURN});
      }
      return false;
    }

    // The debuggee side: deliver an event to its callback and honour DISABLE.

    method Enter(code: Code)
      modifies this, api
      ensures View() == Step(old(View()), Input.Enter(code))
    {
      if api.state.Delivers(Place(PY_START, code, 0)) {
        var disable := OnPyStart(code);
        if disable {
          api.Disable(Place(PY_START, code, 0));
        }
      }
    }

    method Line(code: Code, offset: nat, verdict: string -> Verdict)
      modifies this, api
      ensures View() == Step(old(View()), Input.Line(code, offset, verdict))
    {
      if api.state.Delivers(Place(LINE, code, offset)) {
        var disable := OnLine(code, offset, verdict);
        if disable {
          api.Disable(Place(LINE, code, offset));
        }
      }
    }

    method Return(code: Code, offset: nat)
      modifies this, api
      ensures View() == Step(old(View()), Input.Return(code, offset))
    {
      if api.state.Delivers(Place(PY_RETURN, code, offset)) {
        var disable := OnPyReturn();
        if disable {
          api.Disable(Place(PY_RETURN, code, offset));
        }
      }
    }
  }

  // ----- setting the events of several code objects one at a time -------------------

  lemma NothingSet(h: Host, events: set<Event>)
    ensures h.SetLocalEvents({}, events) == h
  {
    assert WithEvents(h.locals, {}, events) == h.locals;
  }

  lemma SetTwice(h: Host, a: set<Code>, b: set<Code>, events: set<Event>)
    ensures h.SetLocalEvents(a, events).SetLocalEvents(b, events) == h.SetLocalEvents(a + b, events)
  {
    SetEventsTwice(h.locals, a, b, events);
    hide WithEvents;
  }

  lemma SetEventsTwice(locals: map<Code, set<Event>>, a: set<Code>, b: set<Code>, events: set<Event>)
    ensures WithEvents(WithEvents(locals, a, events), b, events) == WithEvents(locals, a + b, events)
  {
    var once := WithEvents(locals, a, events);
    var twice := WithEvents(once, b, events);
    var both := WithEvents(locals, a + b, events);
    assert twice.Keys == both.Keys;
    forall c | c in twice ensures twice[c] == both[c] {
      if c !in b && c !in a {
        assert once[c] == locals[c];
      }
    }
  }

  /** The known codes of `files`. */
  function KnownIn(s: State, files: set<string>): set<Code> {
    set f, c | f in files && f in s.registry && c in s.registry[f] :: c
  }

  lemma KnownInNothing(s: State)
    ensures KnownIn(s, {}) == {}
  {
  }

  lemma KnownInMore(s: State, files: set<string>, file: string)
    ensures KnownIn(s, files + {file}) == KnownIn(s, files) + Known(s, file)
  {
  }

  lemma KnownInAll(s: State)
    ensures KnownIn(s, s.breakpoints.Keys) == KnownWithBreakpoints(s)
  {
  }
}
