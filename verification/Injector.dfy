/**
  The injection pass of `BytecodeModifier`: choosing injection points from line marks,
  and weaving one breakpoint check after every chosen instruction.
 */
module Injector {
  import opened Wrappers
  import opened Bytecode

  /** Line metadata of an instruction.  Up to 3.12 `startsLine` holds a line number; from
      3.13 on `lineNumber` does, and `startsLine` is a marker that counts as 0 or 1. */
  datatype LineMark = LineMark(lineNumber: Option<int>, startsLine: Option<int>)

  datatype Point = Point(line: int, index: nat)

  // ----- the line that is active at an instruction ----------------------------------

  function LineAt(marks: seq<LineMark>, i: nat): Option<int>
    requires i < |marks|
  {
    if marks[i].lineNumber.Some? then marks[i].lineNumber
    else if marks[i].startsLine.Some? then marks[i].startsLine
    else if i == 0 then None
    else LineAt(marks, i - 1)
  }

  /** `i` is the first instruction on which `line` is active. */
  predicate FirstOn(marks: seq<LineMark>, line: int, i: nat) {
    i < |marks| && LineAt(marks, i) == Some(line)
    && forall j: nat :: j < i ==> LineAt(marks, j) != Some(line)
  }

  predicate Preferred(py: Python, op: Byte) {
    op == py.loadConst || op == py.loadFast || op == py.loadGlobal || op == py.storeFast
  }

  function IndexFor(py: Python, instrs: seq<Instr>, i: nat): nat
    requires i < |instrs|
  {
    if Preferred(py, instrs[i].op) then i + 1 else i
  }

  predicate HasLine(points: seq<Point>, line: int) {
    exists k :: 0 <= k < |points| && points[k].line == line
  }

  /** The points found in the first `n` instructions, in order of discovery. */
  function FindPoints(py: Python, instrs: seq<Instr>, marks: seq<LineMark>, lines: set<int>, n: nat): seq<Point>
    requires |marks| == |instrs| && n <= |instrs|
  {
    if n == 0 then [] else
      var found := FindPoints(py, instrs, marks, lines, n - 1);
      match LineAt(marks, n - 1)
      case None => found
      case Some(line) =>
        if line in lines && !HasLine(found, line)
        then found + [Point(line, IndexFor(py, instrs, n - 1))]
        else found
  }

  /** `points` are the points of the first `n` instructions: `at[k]` is the first instruction
      on the line of point `k`, in increasing order, and every breakpoint line has a point. */
  ghost predicate Discovered(
      py: Python, instrs: seq<Instr>, marks: seq<LineMark>, lines: set<int>, n: nat,
      points: seq<Point>, at: seq<nat>)
    requires |marks| == |instrs| && n <= |instrs|
  {
    && |at| == |points|
    && (forall k :: 0 <= k < |points| ==>
          && points[k].line in lines && at[k] < n && FirstOn(marks, points[k].line, at[k])
          && points[k].index == IndexFor(py, instrs, at[k]))
    && (forall j, k :: 0 <= j < k < |points| ==> at[j] < at[k])
    && (forall line, i: nat :: i < n && line in lines && LineAt(marks, i) == Some(line)
          ==> HasLine(points, line))
  }

  /** A breakpoint line has a point exactly when some instruction is on it, the point is
      unique, and it comes from the first such instruction. */
  lemma {:induction false} PointsAreFirstInstructions(
      py: Python, instrs: seq<Instr>, marks: seq<LineMark>, lines: set<int>, n: nat)
    returns (at: seq<nat>)
    requires |marks| == |instrs| && n <= |instrs|
    ensures Discovered(py, instrs, marks, lines, n, FindPoints(py, instrs, marks, lines, n), at)
  {
    if n == 0 {
      at := [];
    } else {
      hide LineAt, IndexFor, FirstOn, HasLine;
      var before := PointsAreFirstInstructions(py, instrs, marks, lines, n - 1);
      var found := FindPoints(py, instrs, marks, lines, n - 1);
      var points := FindPoints(py, instrs, marks, lines, n);
      var line := LineAt(marks, n - 1);
      if points == found {
        at := before;
      } else {
        at := before + [n - 1];
        NewLineIsFirst(py, instrs, marks, lines, n - 1, found, before, line.value);
      }
      LinesKept(found, points);
    }
  }

  /** A breakpoint line without a point so far is first active where it is next seen. */
  lemma NewLineIsFirst(
      py: Python, instrs: seq<Instr>, marks: seq<LineMark>, lines: set<int>, n: nat,
      points: seq<Point>, at: seq<nat>, line: int)
    requires |marks| == |instrs| && n < |instrs|
    requires Discovered(py, instrs, marks, lines, n, points, at)
    requires line in lines && LineAt(marks, n) == Some(line) && !HasLine(points, line)
    ensures FirstOn(marks, line, n)
  {
    hide LineAt, IndexFor, HasLine;
  }

  /** Appending at most one point keeps the lines found and adds the new point's line. */
  lemma LinesKept(found: seq<Point>, points: seq<Point>)
    requires points == found || (points != [] && points[..|points| - 1] == found)
    ensures forall line :: HasLine(found, line) ==> HasLine(points, line)
    ensures points != [] && points != found ==> HasLine(points, points[|points| - 1].line)
  {
    assert forall k :: 0 <= k < |found| ==> points[k] == found[k];
  }

  /** An instruction has line information of its own. */
  predicate HasMark(mark: LineMark) {
    mark.lineNumber != None || mark.startsLine != None
  }

  /** The active line is that of the last mark at or before the instruction: its line number
      when it has one, whatever its starts-line marker holds; None when there is no mark. */
  lemma {:induction false} ActiveLine(marks: seq<LineMark>, i: nat)
    requires i < |marks|
    ensures LineAt(marks, i).None? <==> forall k :: 0 <= k <= i ==> !HasMark(marks[k])
    ensures forall k :: 0 <= k <= i && HasMark(marks[k]) && (forall j :: k < j <= i ==> !HasMark(marks[j])) ==>
      LineAt(marks, i) == match marks[k].lineNumber case Some(line) => Some(line) case None => marks[k].startsLine
  {
    if !HasMark(marks[i]) && i > 0 {
      ActiveLine(marks, i - 1);
    }
  }

  /** Two markings that differ only in markers beside line numbers. */
  predicate SameLines(a: seq<LineMark>, b: seq<LineMark>) {
    && |a| == |b|
    && forall k :: 0 <= k < |a| ==>
         a[k].lineNumber == b[k].lineNumber && (a[k].lineNumber == None ==> a[k].startsLine == b[k].startsLine)
  }

  lemma {:induction false} SameActiveLine(a: seq<LineMark>, b: seq<LineMark>, i: nat)
    requires SameLines(a, b) && i < |a|
    ensures LineAt(a, i) == LineAt(b, i)
  {
    if i > 0 {
      SameActiveLine(a, b, i - 1);
    }
  }

  /** A starts-line marker beside a line number never changes the points. */
  lemma {:induction false} MarkersBesideLinesAreIgnored(
      py: Python, instrs: seq<Instr>, a: seq<LineMark>, b: seq<LineMark>, lines: set<int>, n: nat)
    requires SameLines(a, b) && |a| == |instrs| && n <= |instrs|
    ensures FindPoints(py, instrs, a, lines, n) == FindPoints(py, instrs, b, lines, n)
  {
    if n > 0 {
      MarkersBesideLinesAreIgnored(py, instrs, a, b, lines, n - 1);
      SameActiveLine(a, b, n - 1);
    }
  }

  /** The place of a line's point: after its first instruction when that loads a constant, local
      or global or stores a local, before it otherwise. */
  lemma PointPlace(py: Python, instrs: seq<Instr>, marks: seq<LineMark>, lines: set<int>, line: int, i: nat)
    requires |marks| == |instrs| && line in lines && FirstOn(marks, line, i)
    ensures Point(line, if instrs[i].op in {py.loadConst, py.loadFast, py.loadGlobal, py.storeFast} then i + 1 else i)
            in FindPoints(py, instrs, marks, lines, |instrs|)
  {
    hide LineAt, FindPoints;
    var at := PointsAreFirstInstructions(py, instrs, marks, lines, |instrs|);
    var points := FindPoints(py, instrs, marks, lines, |instrs|);
    assert HasLine(points, line);
    var p: nat :| p < |points| && points[p].line == line;
    assert at[p] == i && points[p] in points;
  }

  method FindInjectionPoints(py: Python, instrs: seq<Instr>, marks: seq<LineMark>, lines: set<int>)
    returns (points: seq<Point>)
    requires |marks| == |instrs|
    ensures points == FindPoints(py, instrs, marks, lines, |instrs|)
  {
    points := [];
    var current: Option<int> := None;
    var i := 0;
    while i < |instrs|
      invariant 0 <= i <= |instrs|
      invariant points == FindPoints(py, instrs, marks, lines, i)
      invariant current == if i == 0 then None else LineAt(marks, i - 1)
    {
      if marks[i].lineNumber.Some? {
        current := marks[i].lineNumber;
      } else if marks[i].startsLine.Some? {
        current := marks[i].startsLine;
      }
      if current.Some? && current.value in lines && !HasLine(points, current.value) {
        if Preferred(py, instrs[i].op) {
          points := points + [Point(current.value, i + 1)];
        } else {
          points := points + [Point(current.value, i)];
        }
      }
      i := i + 1;
    }
  }

  // ----- weaving checks into the list -----------------------------------------------

  /** The line checked after the instruction that precedes `index`: the first in the dict. */
  function SiteAt(points: seq<Point>, index: nat): Option<int> {
    if points == [] then None
    else if points[0].index == index then Some(points[0].line)
    else SiteAt(points[1..], index)
  }

  lemma {:induction false} SiteAtIsFirst(points: seq<Point>, index: nat, k: nat)
    requires k < |points| && points[k].index == index
    requires forall j :: 0 <= j < k ==> points[j].index != index
    ensures SiteAt(points, index) == Some(points[k].line)
  {
    if k > 0 {
      SiteAtIsFirst(points[1..], index, k - 1);
    }
  }

  lemma {:induction false} SiteAtFrom(points: seq<Point>, index: nat) returns (k: nat)
    requires SiteAt(points, index).Some?
    ensures k < |points| && points[k] == Point(SiteAt(points, index).value, index)
    ensures forall j :: 0 <= j < k ==> points[j].index != index
  {
    if points[0].index == index {
      k := 0;
    } else {
      k := SiteAtFrom(points[1..], index);
      assert forall j :: 0 < j < k + 1 ==> points[j] == points[1..][j - 1];
      k := k + 1;
    }
  }

  /** For each instruction, the line whose check follows it. */
  function Sites(points: seq<Point>, n: nat): (sites: seq<Option<int>>)
    ensures |sites| == n
  {
    seq(n, i requires 0 <= i => SiteAt(points, i + 1))
  }

  /** Whether breakpoint line `line`, first active on instruction `i`, loses its check:
      it would have to precede the whole list, or an instruction of another breakpoint
      line just before `i` already claimed the same place. */
  predicate Starved(py: Python, instrs: seq<Instr>, marks: seq<LineMark>, lines: set<int>, i: nat)
    requires |marks| == |instrs| && i < |instrs|
  {
    !Preferred(py, instrs[i].op)
    && (i == 0
        || (Preferred(py, instrs[i - 1].op)
            && exists other :: other in lines && FirstOn(marks, other, i - 1)))
  }

  lemma CheckPlace(
      py: Python, instrs: seq<Instr>, marks: seq<LineMark>, lines: set<int>, points: seq<Point>,
      at: seq<nat>, index: nat, p: nat)
    requires |marks| == |instrs| && Discovered(py, instrs, marks, lines, |instrs|, points, at)
    requires p < |points| && SiteAt(points, index) == Some(points[p].line)
    ensures points[p].index == index
    ensures forall q :: 0 <= q < p ==> points[q].index != index
  {
    var q := SiteAtFrom(points, index);
    assert points[q].line == points[p].line;
    assert at[q] == at[p];
  }

  /** A breakpoint line gets exactly one check, next to its first instruction, unless it is
      starved, and then it gets none. */
  lemma LineIsCheckedUnlessStarved(
      py: Python, instrs: seq<Instr>, marks: seq<LineMark>, lines: set<int>, line: int, i: nat)
    requires |marks| == |instrs| && line in lines && FirstOn(marks, line, i)
    ensures var sites := Sites(FindPoints(py, instrs, marks, lines, |instrs|), |instrs|);
      forall k :: 0 <= k < |sites| ==>
        (sites[k] == Some(line) <==>
          !Starved(py, instrs, marks, lines, i) && k + 1 == IndexFor(py, instrs, i))
  {
    hide LineAt, FindPoints, SiteAt;
    var points := FindPoints(py, instrs, marks, lines, |instrs|);
    var sites := Sites(points, |instrs|);
    var at := PointsAreFirstInstructions(py, instrs, marks, lines, |instrs|);
    assert HasLine(points, line);
    var p: nat :| p < |points| && points[p].line == line;
    assert at[p] == i;
    forall k | 0 <= k < |sites|
      ensures sites[k] == Some(line) <==>
              !Starved(py, instrs, marks, lines, i) && k + 1 == IndexFor(py, instrs, i)
    {
      if sites[k] == Some(line) {
        CheckPlace(py, instrs, marks, lines, points, at, k + 1, p);
        NotStarved(py, instrs, marks, lines, points, at, p);
      } else if k + 1 == points[p].index {
        StarvedBy(py, instrs, marks, lines, points, at, p);
      }
    }
  }

  lemma NotStarved(
      py: Python, instrs: seq<Instr>, marks: seq<LineMark>, lines: set<int>, points: seq<Point>,
      at: seq<nat>, p: nat)
    requires |marks| == |instrs| && Discovered(py, instrs, marks, lines, |instrs|, points, at)
    requires p < |points| && points[p].index > 0
    requires forall q :: 0 <= q < p ==> points[q].index != points[p].index
    ensures !Starved(py, instrs, marks, lines, at[p])
  {
  }

  lemma StarvedBy(
      py: Python, instrs: seq<Instr>, marks: seq<LineMark>, lines: set<int>, points: seq<Point>,
      at: seq<nat>, p: nat)
    requires |marks| == |instrs| && Discovered(py, instrs, marks, lines, |instrs|, points, at)
    requires p < |points| && points[p].index > 0
    requires SiteAt(points, points[p].index) != Some(points[p].line)
    ensures Starved(py, instrs, marks, lines, at[p])
  {
    if forall q :: 0 <= q < p ==> points[q].index != points[p].index {
      SiteAtIsFirst(points, points[p].index, p);
    } else {
      var q :| 0 <= q < p && points[q].index == points[p].index;
      SamePlaceStarves(py, instrs, marks, lines, points[q].line, at[q], at[p]);
    }
  }

  lemma SamePlaceStarves(
      py: Python, instrs: seq<Instr>, marks: seq<LineMark>, lines: set<int>, other: int, i: nat, j: nat)
    requires |marks| == |instrs| && i < j < |instrs| && other in lines && FirstOn(marks, other, i)
    requires IndexFor(py, instrs, i) == IndexFor(py, instrs, j)
    ensures Starved(py, instrs, marks, lines, j)
  {
    assert FirstOn(marks, other, j - 1);
  }

  function CacheRun(py: Python, op: Byte): (r: seq<Instr>)
    ensures |r| == py.Emitted(op)
    ensures forall i :: 0 <= i < |r| ==> r[i] == CacheInstr(py)
  {
    seq(py.Emitted(op), _ => CacheInstr(py))
  }

  function CacheInstr(py: Python): Instr {
    Instr(py.cache, Some(0), NoOperand)
  }

  /** The four-step check for `line`, with the given arguments for its two loads. */
  function CheckWith(py: Python, line: int, globalArg: int, constArg: int): (r: seq<Instr>) {
    [Instr(py.loadGlobal, Some(globalArg), NameOperand(HELPER))]
    + CacheRun(py, py.loadGlobal)
    + [Instr(py.loadConst, Some(constArg), ConstOperand(IntConst(line)))]
    + [Instr(py.call, Some(1), NoOperand)]
    + CacheRun(py, py.call)
    + [Instr(py.popTop, None, NoOperand)]
  }

  /** As created by the injector: both loads synthetic. */
  function Check(py: Python, line: int): seq<Instr> {
    CheckWith(py, line, -1, -1)
  }

  /** As resolved against `pools`. */
  function CheckIn(py: Python, pools: Pools, line: int): seq<Instr> {
    CheckWith(py, line, py.GlobalArg(IndexOf(pools.names, HELPER)), IndexOf(pools.consts, IntConst(line)))
  }

  function CheckAt(py: Python, site: Option<int>): seq<Instr> {
    if site.Some? then Check(py, site.value) else []
  }

  function CheckAtIn(py: Python, pools: Pools, site: Option<int>): seq<Instr> {
    if site.Some? then CheckIn(py, pools, site.value) else []
  }

  function Weave(py: Python, instrs: seq<Instr>, sites: seq<Option<int>>): seq<Instr>
    requires |sites| == |instrs|
  {
    if instrs == [] then []
    else [instrs[0]] + (CheckAt(py, sites[0]) + Weave(py, instrs[1..], sites[1..]))
  }

  function WeaveIn(py: Python, pools: Pools, instrs: seq<Instr>, sites: seq<Option<int>>): seq<Instr>
    requires |sites| == |instrs|
  {
    if instrs == [] then []
    else [instrs[0]] + (CheckAtIn(py, pools, sites[0]) + WeaveIn(py, pools, instrs[1..], sites[1..]))
  }

  /** The head of a woven list and what follows it. */
  lemma WovenTail(py: Python, pools: Pools, instrs: seq<Instr>, sites: seq<Option<int>>)
    requires |sites| == |instrs| > 0
    ensures var w := WeaveIn(py, pools, instrs, sites);
      && w != [] && w[0] == instrs[0]
      && w[1..] == CheckAtIn(py, pools, sites[0]) + WeaveIn(py, pools, instrs[1..], sites[1..])
      && (sites[0].None? ==> w[1..] == WeaveIn(py, pools, instrs[1..], sites[1..]))
  {
  }

  lemma {:induction false} WeaveSnoc(py: Python, instrs: seq<Instr>, sites: seq<Option<int>>)
    requires |sites| == |instrs| > 0
    ensures var n := |instrs| - 1;
      Weave(py, instrs, sites) ==
      Weave(py, instrs[..n], sites[..n]) + ([instrs[n]] + CheckAt(py, sites[n]))
  {
    var n := |instrs| - 1;
    if n > 0 {
      WeaveSnoc(py, instrs[1..], sites[1..]);
      assert instrs[1..][..n - 1] == instrs[..n][1..];
      assert sites[1..][..n - 1] == sites[..n][1..];
    }
  }

  method CreateBreakpointCheckInstructions(py: Python, line: int) returns (r: seq<Instr>)
    ensures r == Check(py, line)
  {
    r := [Instr(py.loadGlobal, Some(-1), NameOperand(HELPER))];
    r := r + CacheRun(py, py.loadGlobal);
    r := r + [Instr(py.loadConst, Some(-1), ConstOperand(IntConst(line)))];
    r := r + [Instr(py.call, Some(1), NoOperand)];
    r := r + CacheRun(py, py.call);
    r := r + [Instr(py.popTop, None, NoOperand)];
  }

  /** Search the dict of points in insertion order. */
  method LineFor(points: seq<Point>, index: nat) returns (line: Option<int>)
    ensures line == SiteAt(points, index)
  {
    line := None;
    var k := 0;
    while k < |points| && line.None?
      invariant 0 <= k <= |points|
      invariant SiteAt(points, index) == if line.Some? then line else SiteAt(points[k..], index)
    {
      if points[k].index == index {
        line := Some(points[k].line);
      }
      assert points[k..][1..] == points[k + 1..];
      k := k + 1;
    }
  }

  method CreateBreakpointInstructions(py: Python, original: seq<Instr>, points: seq<Point>)
    returns (woven: seq<Instr>)
    ensures woven == Weave(py, original, Sites(points, |original|))
  {
    hide Check, Weave, SiteAt;
    ghost var sites := Sites(points, |original|);
    woven := [];
    assert Weave(py, [], []) == [] by { WeaveNothing(py); }
    var i := 0;
    while i < |original|
      invariant 0 <= i <= |original|
      invariant woven == Weave(py, original[..i], sites[..i])
    {
      ghost var before := woven;
      woven := woven + [original[i]];
      var line := LineFor(points, i + 1);
      ghost var check: seq<Instr> := [];
      if line.Some? {
        var instrs := CreateBreakpointCheckInstructions(py, line.value);
        woven := woven + instrs;
        check := instrs;
      }
      assert woven == before + ([original[i]] + check);
      assert check == CheckAt(py, sites[i]);
      WeaveNext(py, original, sites, i);
      i := i + 1;
    }
    assert original[..i] == original && sites[..i] == sites;
  }

  lemma WeaveNothing(py: Python)
    ensures Weave(py, [], []) == []
  {
  }

  lemma WeaveNext(py: Python, instrs: seq<Instr>, sites: seq<Option<int>>, i: nat)
    requires |sites| == |instrs| && i < |instrs|
    ensures Weave(py, instrs[..i + 1], sites[..i + 1]) ==
            Weave(py, instrs[..i], sites[..i]) + ([instrs[i]] + CheckAt(py, sites[i]))
  {
    WeaveSnoc(py, instrs[..i + 1], sites[..i + 1]);
    assert instrs[..i + 1][..i] == instrs[..i] && sites[..i + 1][..i] == sites[..i];
  }

  // ----- resolving a woven list -----------------------------------------------------

  /** Both values a check needs are in the pools. */
  predicate Supplies(pools: Pools, line: int) {
    HELPER in pools.names && IntConst(line) in pools.consts
  }

  lemma ResolvedCheckStable(py: Python, p: Pools, q: Pools, line: int)
    requires Extends(p, q) && Supplies(p, line)
    ensures Supplies(q, line) && CheckIn(py, q, line) == CheckIn(py, p, line)
  {
    IndexStable(p.names, q.names, HELPER);
    IndexStable(p.consts, q.consts, IntConst(line));
    assert q.names[IndexOf(p.names, HELPER)] == HELPER;
    assert q.consts[IndexOf(p.consts, IntConst(line))] == IntConst(line);
  }

  /** The end of a check, from its call on. */
  function CheckEnd(py: Python): seq<Instr> {
    [Instr(py.call, Some(1), NoOperand)] + (CacheRun(py, py.call) + [Instr(py.popTop, None, NoOperand)])
  }

  function LoadHelperInstr(py: Python, arg: int): Instr {
    Instr(py.loadGlobal, Some(arg), NameOperand(HELPER))
  }

  function LoadLineInstr(py: Python, arg: int, line: int): Instr {
    Instr(py.loadConst, Some(arg), ConstOperand(IntConst(line)))
  }

  lemma CheckParts(py: Python, line: int, globalArg: int, constArg: int)
    ensures CheckWith(py, line, globalArg, constArg) ==
      [LoadHelperInstr(py, globalArg)]
      + (CacheRun(py, py.loadGlobal) + ([LoadLineInstr(py, constArg, line)] + CheckEnd(py)))
  {
    hide CacheRun;
  }

  lemma CheckRunsResolved(py: Python)
    requires py.Valid()
    ensures AllResolved(py, CacheRun(py, py.loadGlobal)) && AllResolved(py, CheckEnd(py))
  {
  }

  lemma ResolveCheck(py: Python, pools: Pools, line: int)
    requires py.Valid()
    ensures var (r, q) := Resolve(py, Check(py, line), pools);
            r == CheckIn(py, q, line) && Extends(pools, q) && Supplies(q, line)
  {
    hide CacheRun, CheckWith, CheckEnd, Resolve;
    var lg := LoadHelperInstr(py, -1);
    var lc := LoadLineInstr(py, -1, line);
    var mid, end := CacheRun(py, py.loadGlobal), CheckEnd(py);
    var p := pools.(names := WithValue(pools.names, HELPER));
    var q := p.(consts := WithValue(p.consts, IntConst(line)));
    CheckParts(py, line, -1, -1);
    CheckRunsResolved(py);
    ResolveIdentity(py, mid, p);
    ResolveIdentity(py, end, q);
    ResolveSingle(py, lg, pools);
    ResolveSingle(py, lc, p);
    ResolveConcat(py, [lc], end, p);
    ResolveConcat(py, mid, [lc] + end, p);
    ResolveConcat(py, [lg], mid + ([lc] + end), pools);
    CheckParts(py, line, py.GlobalArg(IndexOf(q.names, HELPER)), IndexOf(q.consts, IntConst(line)));
  }

  lemma ResolveSingle(py: Python, i: Instr, pools: Pools)
    ensures Resolve(py, [i], pools) == ([ResolveOne(py, i, pools).0], ResolveOne(py, i, pools).1)
  {
    var (r, p) := ResolveOne(py, i, pools);
    assert Resolve(py, [i][1..], p) == ([], p);
    assert [r] + [] == [r];
  }

  /** Resolving a woven list leaves the original instructions alone and gives every check
      its first-occurrence indices in the final pools; the pools only grow at their ends. */
  lemma {:induction false} ResolveWeave(py: Python, instrs: seq<Instr>, sites: seq<Option<int>>, pools: Pools)
    requires py.Valid() && |sites| == |instrs| && AllResolved(py, instrs)
    ensures var (r, q) := Resolve(py, Weave(py, instrs, sites), pools);
      && r == WeaveIn(py, q, instrs, sites) && Extends(pools, q)
      && (forall i :: 0 <= i < |sites| && sites[i].Some? ==> Supplies(q, sites[i].value))
  {
    if instrs != [] {
      assert forall i :: 0 <= i < |instrs[1..]| ==> instrs[1..][i] == instrs[i + 1];
      var check := CheckAt(py, sites[0]);
      var tail := Weave(py, instrs[1..], sites[1..]);
      assert !Synthetic(py, instrs[0]);
      ResolveSingle(py, instrs[0], pools);
      ResolveConcat(py, [instrs[0]], check + tail, pools);
      ResolveConcat(py, check, tail, pools);
      var (rc, p) := Resolve(py, check, pools);
      ResolveWeave(py, instrs[1..], sites[1..], p);
      var (rt, q) := Resolve(py, tail, p);
      if sites[0].Some? {
        ResolveCheck(py, pools, sites[0].value);
        ResolvedCheckStable(py, p, q, sites[0].value);
      }
      assert forall i :: 0 < i < |sites| ==> sites[i] == sites[1..][i - 1];
    }
  }
}
