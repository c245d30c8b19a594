/**
  The authoritative breakpoint table of `FrameTraceManager`, its mirror in the LRU cache, and
  the trace decision that reads only the mirror.
 */
module SelectiveTracer {
  import opened Wrappers
  import opened Conditions
  import opened Recency
  import opened BreakpointCache

  datatype Manager = Manager(globals: map<string, set<int>>, table: Lru)

  datatype Request =
    | UpdateFile(file: string, lines: set<int>, stat: FileStat, now: int)
    | AddBreakpoint(file: string, line: int, stat: FileStat, now: int)
    | RemoveBreakpoint(file: string, line: int, stat: FileStat, now: int)
    | ClearFile(file: string, stat: FileStat, now: int)
    | ClearEverything
    | Consult(file: string, stat: FileStat)

  /** `_global_breakpoints` is a defaultdict. */
  function Authority(globals: map<string, set<int>>, file: string): set<int> {
    if file in globals then globals[file] else {}
  }

  /** The authoritative set after the request, for requests about one file. */
  function NewLines(m: Manager, r: Request): set<int> {
    match r
    case UpdateFile(_, lines, _, _) => lines
    case AddBreakpoint(file, line, _, _) => Authority(m.globals, file) + {line}
    case RemoveBreakpoint(file, line, _, _) => Authority(m.globals, file) - {line}
    case _ => {}
  }

  function Handle(m: Manager, r: Request): Manager {
    if r.ClearEverything? then m.(globals := map[])  // the key list is taken after clearing
    else if r.Consult? then m.(table := DoGet(m.table, r.file, r.stat).0)
    else Manager(m.globals[r.file := NewLines(m, r)], DoSet(m.table, r.file, NewLines(m, r), r.stat, r.now))
  }

  function HandleAll(maxEntries: int, requests: seq<Request>): Manager {
    if requests == [] then Manager(map[], Lru([], maxEntries, true))
    else Handle(HandleAll(maxEntries, requests[..|requests| - 1]), requests[|requests| - 1])
  }

  // ----- the mirror -----------------------------------------------------------------

  function Cached(m: Manager, file: string): Option<set<int>> {
    match Find(m.table.entries, file)
    case None => None
    case Some(e) => Some(e.lines)
  }

  /** What the cache should answer: the authoritative set, or nothing when it is empty. */
  function Expected(m: Manager, file: string): Option<set<int>> {
    if Authority(m.globals, file) == {} then None else Some(m.globals[file])
  }

  ghost predicate Mirrors(m: Manager) {
    && Shaped(m.table) && m.table.enabled
    && forall f :: Cached(m, f) == Expected(m, f)
  }

  function NonEmpty(m: Manager): set<string> {
    set f | f in m.globals && m.globals[f] != {}
  }

  /** The files with breakpoints fit the cache, and a file that is consulted has not changed. */
  predicate Admissible(m: Manager, r: Request) {
    && |NonEmpty(Handle(m, r))| <= m.table.maxEntries
    && (r.Consult? && Find(m.table.entries, r.file).Some? ==> Usable(Find(m.table.entries, r.file).value, r.stat))
  }

  lemma EntriesAreNonEmpty(m: Manager)
    requires Mirrors(m)
    ensures |m.table.entries| == |NonEmpty(m)|
  {
    forall f ensures f in Files(m.table.entries) <==> f in NonEmpty(m) {
      FindIffListed(m.table.entries, f);
      assert Cached(m, f) == Expected(m, f);
    }
    DomainSize(Files(m.table.entries), NonEmpty(m));
  }

  lemma MirrorsConsult(m: Manager, r: Request)
    requires Mirrors(m) && Admissible(m, r) && r.Consult?
    ensures Mirrors(Handle(m, r))
  {
    StepShape(m.table, Get(r.file, r.stat));
    if Find(m.table.entries, r.file).Some? {
      AddedFacts(m.table, r.file, Find(m.table.entries, r.file).value);
    }
    forall f ensures Cached(Handle(m, r), f) == Expected(Handle(m, r), f) {
      assert Cached(m, f) == Expected(m, f);
    }
  }

  lemma RoomForUpdate(m: Manager, r: Request)
    requires Mirrors(m) && Admissible(m, r) && !r.Consult? && !r.ClearEverything? && NewLines(m, r) != {}
    ensures |Added(m.table, r.file, NewLines(m, r), r.stat, r.now)| <= m.table.maxEntries
  {
    var s := Added(m.table, r.file, NewLines(m, r), r.stat, r.now);
    EntriesAreNonEmpty(m);
    FindIffListed(m.table.entries, r.file);
    AddedFacts(m.table, r.file, s[|s| - 1]);
    assert Cached(m, r.file) == Expected(m, r.file);
    assert NonEmpty(Handle(m, r)) == NonEmpty(m) + {r.file};
  }

  lemma MirrorsUpdate(m: Manager, r: Request)
    requires Mirrors(m) && Admissible(m, r) && !r.Consult? && !r.ClearEverything?
    ensures Mirrors(Handle(m, r))
  {
    hide Admissible, Drop, Find, Trim;
    var n := Handle(m, r);
    var lines := NewLines(m, r);
    StepShape(m.table, Set(r.file, lines, r.stat, r.now));
    if lines == {} {
      DropFacts(m.table, r.file);
    } else {
      var s := Added(m.table, r.file, lines, r.stat, r.now);
      RoomForUpdate(m, r);
      AddedFacts(m.table, r.file, s[|s| - 1]);
      TrimFacts(s, m.table.maxEntries, r.file);
    }
    forall f ensures Cached(n, f) == Expected(n, f) {
      assert Cached(m, f) == Expected(m, f);
    }
  }

  /** `clear_breakpoints()` without a file keeps the mirror exactly when there was nothing to
      clear: it empties the authority and leaves the cache alone. */
  lemma ClearEverythingKeepsMirrorOnlyIfEmpty(m: Manager)
    requires Mirrors(m)
    ensures Mirrors(Handle(m, ClearEverything)) <==> NonEmpty(m) == {}
  {
    var n := Handle(m, ClearEverything);
    if NonEmpty(m) != {} {
      var f :| f in NonEmpty(m);
      assert Cached(m, f) == Expected(m, f);
      assert Cached(n, f) != Expected(n, f);
    } else {
      forall f ensures Cached(n, f) == Expected(n, f) {
        assert Cached(m, f) == Expected(m, f);
        assert f in m.globals ==> f !in NonEmpty(m);
      }
    }
  }

  predicate AllAdmissible(maxEntries: int, requests: seq<Request>) {
    requests == []
    || (AllAdmissible(maxEntries, requests[..|requests| - 1])
        && !requests[|requests| - 1].ClearEverything?
        && Admissible(HandleAll(maxEntries, requests[..|requests| - 1]), requests[|requests| - 1]))
  }

  /** Over every admissible run the cached lookup of every file is the authoritative set. */
  lemma {:induction false} MirrorAlwaysAgrees(maxEntries: int, requests: seq<Request>)
    requires AllAdmissible(maxEntries, requests)
    ensures Mirrors(HandleAll(maxEntries, requests))
  {
    if requests != [] {
      hide Mirrors, Handle, Admissible;
      var n := |requests| - 1;
      MirrorAlwaysAgrees(maxEntries, requests[..n]);
      if requests[n].Consult? {
        MirrorsConsult(HandleAll(maxEntries, requests[..n]), requests[n]);
      } else {
        MirrorsUpdate(HandleAll(maxEntries, requests[..n]), requests[n]);
      }
    }
  }

  // ----- the trace decision ---------------------------------------------------------

  /** A frame, as far as the decision looks at it. */
  datatype Frame = Frame(line: int, lastLine: int, skipped: bool, verdict: string -> Verdict)

  datatype Code = Code(file: string, lines: set<int>, firstLine: Option<int>)

  datatype Thread = Thread(
    insideFrameEval: bool, fullyInitialized: bool, debuggerInternal: bool, skipAllFrames: bool, stepMode: bool)

  datatype Path = SkipPath | OriginalPath | BreakpointedPath

  datatype Decision = Decision(path: Path, lines: set<int>)

  const SKIP_PATTERNS :=
    ["<", "site-packages/", "python3.", "lib/python", "Python/Lib", "importlib", "dapper/_frame_eval/"]

  predicate ShouldTrackFile(file: string) {
    (forall i :: 0 <= i < |SKIP_PATTERNS| ==> !Contains(file, SKIP_PATTERNS[i]))
    && |file| >= 3 && file[|file| - 3..] == ".py"
  }

  predicate ShouldSkip(t: Thread, frame: Option<Frame>, allowCurrentEvalFrame: bool) {
    (!allowCurrentEvalFrame && t.insideFrameEval) || !t.fullyInitialized || t.debuggerInternal
    || t.skipAllFrames || (frame.Some? && frame.value.skipped)
  }

  /** Breakpoint lines inside the code object, by its line table or else by a line range. */
  function CodeBreakpoints(code: Code, lines: set<int>, frame: Option<Frame>): set<int> {
    if code.lines != {} then lines * code.lines
    else
      var start := if code.firstLine.Some? then code.firstLine.value
                   else if frame.Some? then frame.value.line else 0;
      var end := if frame.Some? then frame.value.lastLine else start + 100;
      set l | l in lines && start <= l <= end
  }

  function Decide(
      found: Option<set<int>>, conditions: map<int, string>, code: Code, lineno: int,
      frame: Option<Frame>, t: Thread, allowCurrentEvalFrame: bool): Decision {
    if ShouldSkip(t, frame, allowCurrentEvalFrame) then Decision(SkipPath, {})
    else if found.None? || found.value == {} then
      Decision(if ShouldTrackFile(code.file) then OriginalPath else SkipPath, {})
    else if lineno in found.value then
      if lineno in conditions && frame.Some?
         && !frame.value.verdict(conditions[lineno]).passed
         && !frame.value.verdict(conditions[lineno]).fallback
      then Decision(OriginalPath, {})
      else Decision(BreakpointedPath, {lineno})
    else
      var inside := CodeBreakpoints(code, found.value, frame);
      if inside != {} && t.fullyInitialized && t.stepMode then Decision(BreakpointedPath, inside)
      else Decision(OriginalPath, {})
  }

  /** A decision never invents lines: it reports a non-empty set of known breakpoints exactly
      on the breakpointed path, and on a breakpoint line only that line. */
  lemma DecisionReportsKnownLines(
      found: Option<set<int>>, conditions: map<int, string>, code: Code, lineno: int,
      frame: Option<Frame>, t: Thread, allow: bool)
    ensures var d := Decide(found, conditions, code, lineno, frame, t, allow);
      && (d.lines != {} <==> d.path == BreakpointedPath)
      && (d.lines != {} ==> found.Some? && d.lines <= found.value)
      && (d.lines != {} && lineno in found.value ==> d.lines == {lineno})
      && (d.lines != {} && lineno !in found.value ==> t.stepMode)
  {
  }

  /** Files are tracked that end in ".py" and in whose name no system pattern occurs. */
  lemma TrackedIff(file: string)
    ensures ShouldTrackFile(file) <==>
      && |file| >= 3 && file[|file| - 3..] == ['.', 'p', 'y']
      && forall i: nat :: !OccursAt("<", file, i) && !OccursAt("site-packages/", file, i)
           && !OccursAt("python3.", file, i) && !OccursAt("lib/python", file, i) && !OccursAt("Python/Lib", file, i)
           && !OccursAt("importlib", file, i) && !OccursAt("dapper/_frame_eval/", file, i)
  {
    var ps :=
      ["<", "site-packages/", "python3.", "lib/python", "Python/Lib", "importlib", "dapper/_frame_eval/"];
    assert ps == SKIP_PATTERNS;
    forall k | 0 <= k < |ps| ensures Contains(file, ps[k]) <==> exists i: nat :: OccursAt(ps[k], file, i) {
      ContainsIff(file, ps[k]);
    }
    hide Contains, OccursAt;
    assert forall i: nat, k | 0 <= k < |ps| :: OccursAt(ps[k], file, i) ==> Contains(file, ps[k]);
    if ShouldTrackFile(file) {
      forall i: nat, k | 0 <= k < |ps| ensures !OccursAt(ps[k], file, i) {
      }
      forall i: nat
        ensures !OccursAt("<", file, i) && !OccursAt("site-packages/", file, i)
          && !OccursAt("python3.", file, i) && !OccursAt("lib/python", file, i) && !OccursAt("Python/Lib", file, i)
          && !OccursAt("importlib", file, i) && !OccursAt("dapper/_frame_eval/", file, i)
      {
        assert !OccursAt(ps[0], file, i) && !OccursAt(ps[1], file, i) && !OccursAt(ps[2], file, i)
          && !OccursAt(ps[3], file, i) && !OccursAt(ps[4], file, i) && !OccursAt(ps[5], file, i)
          && !OccursAt(ps[6], file, i);
      }
    }
  }

  /** The decision for the lines known of a file: a skipped location is skipped; a breakpoint
      line is traced, and it alone, unless a frame is given in which its condition fails; any
      other line of a file with breakpoints is traced only for a step, and then exactly for the
      breakpoints among the lines of its code; a file without any keeps its original path when
      it is tracked at all. */
  lemma DecisionExactly(
      lines: set<int>, conditions: map<int, string>, code: Code, lineno: int,
      frame: Option<Frame>, t: Thread, allow: bool)
    ensures var found := if lines == {} then None else Some(lines);
      var d := Decide(found, conditions, code, lineno, frame, t, allow);
      var skipped := (t.insideFrameEval && !allow) || !t.fullyInitialized || t.debuggerInternal || t.skipAllFrames
                     || (frame.Some? && frame.value.skipped);
      var held := lineno in conditions && frame.Some? && !frame.value.verdict(conditions[lineno]).passed
                  && !frame.value.verdict(conditions[lineno]).fallback;
      && (skipped ==> d == Decision(SkipPath, {}))
      && (!skipped && lineno in lines ==>
          d == if held then Decision(OriginalPath, {}) else Decision(BreakpointedPath, {lineno}))
      && (!skipped && lines == {} ==>
          d.lines == {} && d.path == if ShouldTrackFile(code.file) then OriginalPath else SkipPath)
      && (!skipped && lines != {} && lineno !in lines ==>
          && (d.path == BreakpointedPath || d.path == OriginalPath)
          && (d.path == BreakpointedPath <==> d.lines != {})
          && forall l :: l in d.lines <==> t.stepMode && l in lines && InCode(code, frame, l))
  {
  }

  /** A line belongs to the code by its line table, or, without one, by the range from its first
      line, or else the frame's, to the frame's last line, or else 100 lines further. */
  predicate InCode(code: Code, frame: Option<Frame>, line: int) {
    if code.lines != {} then line in code.lines
    else match (code.firstLine, frame)
      case (Some(first), Some(f)) => first <= line && line <= f.lastLine
      case (Some(first), None) => first <= line && line - first <= 100
      case (None, Some(f)) => f.line <= line && line <= f.lastLine
      case (None, None) => 0 <= line && line <= 100
  }

  // ----- the object -----------------------------------------------------------------

  /** A line to stop at, with its condition if it has one. */
  datatype Spec = Spec(line: int, condition: Option<string>)

  function ConditionOf(conditions: map<string, map<int, string>>, file: string, line: int): Option<string> {
    if file in conditions && line in conditions[file] then Some(conditions[file][line]) else None
  }

  /** The lines of the specifications, and the condition each line's last one asks for. */
  method Collect(specs: seq<Spec>) returns (lines: set<int>, wanted: map<int, Option<string>>)
    ensures lines == set s | s in specs :: s.line
    ensures wanted.Keys == lines
    ensures forall i :: 0 <= i < |specs| && (forall j :: i < j < |specs| ==> specs[j].line != specs[i].line) ==>
      wanted[specs[i].line] == specs[i].condition
  {
    lines, wanted := {}, map[];
    for i := 0 to |specs|
      invariant lines == set s | s in specs[..i] :: s.line
      invariant wanted.Keys == lines
      invariant forall k :: 0 <= k < i && (forall j :: k < j < i ==> specs[j].line != specs[k].line) ==>
        specs[k].line in wanted && wanted[specs[k].line] == specs[k].condition
    {
      lines := lines + {specs[i].line};
      wanted := wanted[specs[i].line := specs[i].condition];
      assert specs[..i + 1] == specs[..i] + [specs[i]];
    }
    assert specs[..|specs|] == specs;
  }

  class FrameTraceManager {
    var globals: map<string, set<int>>
    var conditions: map<string, map<int, string>>
    const cache: BreakpointCache

    ghost predicate Valid()
      reads this, cache
    {
      cache.Valid()
    }

    ghost function View(): Manager
      reads this, cache
      requires Valid()
    {
      Manager(globals, cache.View())
    }

    constructor (maxEntries: int)
      ensures Valid() && fresh(cache) && View() == HandleAll(maxEntries, []) && conditions == map[]
    {
      globals, conditions := map[], map[];
      cache := new BreakpointCache(maxEntries);
    }

    method UpdateFileBreakpoints(file: string, lines: set<int>, stat: FileStat, now: int)
      requires Valid()
      modifies this`globals, cache
      ensures Valid() && View() == Handle(old(View()), UpdateFile(file, lines, stat, now))
      ensures forall f :: Authority(globals, f) == if f == file then lines else Authority(old(globals), f)
    {
      globals := globals[file := lines];
      cache.SetBreakpoints(file, lines, stat, now);
    }

    /** Replaces the conditions of the file; a line without one asks for none. */
    method SetBreakpointConditions(file: string, wanted: map<int, Option<string>>)
      modifies this`conditions
      ensures forall f, line :: f != file ==> ConditionOf(conditions, f, line) == old(ConditionOf(conditions, f, line))
      ensures forall line :: ConditionOf(conditions, file, line) == if line in wanted then wanted[line] else None
    {
      var active := map line | line in wanted && wanted[line].Some? :: wanted[line].value;
      conditions := if active != map[] then conditions[file := active] else conditions - {file};
      forall line ensures ConditionOf(conditions, file, line) == if line in wanted then wanted[line] else None {
        assert line in active <==> line in wanted && wanted[line].Some?;
      }
    }

    /** Of several specifications of one line the last decides, also about its condition. */
    method SetConditionalBreakpoints(file: string, specs: seq<Spec>, stat: FileStat, now: int)
      requires Valid()
      modifies this`globals, this`conditions, cache
      ensures Valid()
      ensures View() == Handle(old(View()), UpdateFile(file, set s | s in specs :: s.line, stat, now))
      ensures Authority(globals, file) == set s | s in specs :: s.line
      ensures forall i :: 0 <= i < |specs| && (forall j :: i < j < |specs| ==> specs[j].line != specs[i].line) ==>
        ConditionOf(conditions, file, specs[i].line) == specs[i].condition
      ensures forall line :: line !in Authority(globals, file) ==> ConditionOf(conditions, file, line) == None
      ensures forall f, line :: f != file ==> ConditionOf(conditions, f, line) == old(ConditionOf(conditions, f, line))
    {
      var lines, wanted := Collect(specs);
      hide Contains, Trim, Drop, DoSet;
      SetBreakpointConditions(file, wanted);
      globals := globals[file := lines];
      cache.SetBreakpoints(file, lines, stat, now);
    }

    method AddBreakpoint(file: string, line: int, stat: FileStat, now: int)
      requires Valid()
      modifies this`globals, cache
      ensures Valid() && View() == Handle(old(View()), Request.AddBreakpoint(file, line, stat, now))
      ensures forall f, l :: l in Authority(globals, f) <==> (f == file && l == line) || l in Authority(old(globals), f)
    {
      globals := globals[file := Authority(globals, file) + {line}];
      cache.SetBreakpoints(file, globals[file], stat, now);
    }

    method RemoveBreakpoint(file: string, line: int, stat: FileStat, now: int)
      requires Valid()
      modifies this`globals, cache
      ensures Valid() && View() == Handle(old(View()), Request.RemoveBreakpoint(file, line, stat, now))
      ensures forall f, l :: l in Authority(globals, f) <==> !(f == file && l == line) && l in Authority(old(globals), f)
    {
      globals := globals[file := Authority(globals, file) - {line}];
      cache.SetBreakpoints(file, globals[file], stat, now);
    }

    /** An empty file name counts as no file name. */
    method ClearBreakpoints(file: Option<string>, stat: FileStat, now: int)
      requires Valid()
      modifies this`globals, cache
      ensures Valid()
      ensures View() == Handle(old(View()),
        if file.Some? && file.value != "" then ClearFile(file.value, stat, now) else ClearEverything)
      ensures forall f ::
        Authority(globals, f) == if file in {None, Some(""), Some(f)} then {} else Authority(old(globals), f)
    {
      if file.Some? && file.value != "" {
        globals := globals[file.value := {}];
        cache.SetBreakpoints(file.value, {}, stat, now);
      } else {
        globals := map[];
      }
    }

    /** While the mirror agrees and the file is unchanged, the decision taken from the cache
        is the one the authoritative table gives, and the mirror still agrees afterwards. */
    method ShouldTraceCode(
        code: Code, lineno: int, frame: Option<Frame>, t: Thread, allowCurrentEvalFrame: bool, stat: FileStat)
      returns (d: Decision)
      requires Valid() && Mirrors(View()) && Admissible(View(), Consult(code.file, stat))
      modifies cache
      ensures Valid() && Mirrors(View())
      ensures d == Decide(Expected(old(View()), code.file),
                          if code.file in conditions then conditions[code.file] else map[],
                          code, lineno, frame, t, allowCurrentEvalFrame)
      ensures var lines := Authority(globals, code.file);
        var condition := ConditionOf(conditions, code.file, lineno);
        var skipped := (t.insideFrameEval && !allowCurrentEvalFrame) || !t.fullyInitialized || t.debuggerInternal
                       || t.skipAllFrames || (frame.Some? && frame.value.skipped);
        var passes := condition.None? || frame.None? || frame.value.verdict(condition.value).passed
                      || frame.value.verdict(condition.value).fallback;
        && (skipped ==> d == Decision(SkipPath, {}))
        && (!skipped && lineno in lines ==>
            && (passes <==> d == Decision(BreakpointedPath, {lineno}))
            && (!passes <==> d == Decision(OriginalPath, {})))
        && (!skipped && lineno !in lines && lines != {} ==>
            d.path != SkipPath && d.lines == set l | l in lines && t.stepMode && InCode(code, frame, l))
    {
      hide Contains, Trim, Drop, ShouldTrackFile;
      if ShouldSkip(t, frame, allowCurrentEvalFrame) {
        return Decision(SkipPath, {});
      }
      MirrorsConsult(View(), Consult(code.file, stat));
      assert Cached(View(), code.file) == Expected(View(), code.file);
      var found := cache.GetBreakpoints(code.file, stat);
      assert View() == Handle(old(View()), Consult(code.file, stat));
      var known := if code.file in conditions then conditions[code.file] else map[];
      if found.None? || found.value == {} {
        return Decision(if ShouldTrackFile(code.file) then OriginalPath else SkipPath, {});
      }
      if lineno in found.value {
        if lineno in known && frame.Some? {
          var result := frame.value.verdict(known[lineno]);
          if !result.passed && !result.fallback {
            return Decision(OriginalPath, {});
          }
        }
        return Decision(BreakpointedPath, {lineno});
      }
      var inside := CodeBreakpoints(code, found.value, frame);
      if inside != {} && t.fullyInitialized && t.stepMode {
        return Decision(BreakpointedPath, inside);
      }
      return Decision(OriginalPath, {});
    }
  }
}
