/**
  `remove_breakpoints`: recognising a breakpoint sequence and dropping it, and the proof
  that dropping undoes weaving.
 */
module Stripper {
  import opened Wrappers
  import opened Bytecode
  import opened Injector

  /** The first position at or after `i` that does not hold a CACHE entry. */
  function SkipCaches(py: Python, s: seq<Instr>, i: nat): (k: nat)
    requires i <= |s|
    ensures i <= k <= |s|
    decreases |s| - i
  {
    if i < |s| && s[i].op == py.cache then SkipCaches(py, s, i + 1) else i
  }

  predicate CachesBetween(py: Python, s: seq<Instr>, from: nat, to: nat) {
    to <= |s| && forall i :: from <= i < to ==> s[i].op == py.cache
  }

  method SkipCachesFrom(py: Python, s: seq<Instr>, start: nat) returns (index: nat)
    requires start <= |s|
    ensures index == SkipCaches(py, s, start)
  {
    index := start;
    while index < |s| && s[index].op == py.cache
      invariant start <= index <= |s|
      invariant SkipCaches(py, s, start) == SkipCaches(py, s, index)
    {
      index := index + 1;
    }
  }

  /** The position after the next non-CACHE instruction at or after `start` when that
      instruction is an `op`; None otherwise. */
  function Expect(py: Python, s: seq<Instr>, start: nat, op: Byte): (r: Option<nat>)
    requires start <= |s|
    ensures r.Some? ==> start < r.value <= |s|
  {
    var k := SkipCaches(py, s, start);
    if k < |s| && s[k].op == op then Some(k + 1) else None
  }

  method ReadExpected(py: Python, s: seq<Instr>, start: nat, op: Byte) returns (r: Option<nat>)
    requires start <= |s|
    ensures r == Expect(py, s, start, op)
  {
    var k := SkipCachesFrom(py, s, start);
    if k >= |s| {
      return None;
    }
    if s[k].op != op {
      return None;
    }
    return Some(k + 1);
  }

  predicate NamesHelper(i: Instr) {
    i.argval == NameOperand(HELPER)
  }

  /** Python's `isinstance(v, int)`, which bool satisfies. */
  predicate HoldsInt(i: Instr) {
    i.argval.ConstOperand? && (i.argval.c.IntConst? || i.argval.c.BoolConst?)
  }

  /** The position of the second load, when `s` starts with two loads in either order. */
  function SecondLoad(py: Python, s: seq<Instr>): (r: Option<nat>)
    ensures r.Some? ==> 0 < r.value < |s|
  {
    if s == [] || (s[0].op != py.loadGlobal && s[0].op != py.loadConst) then None
    else
      var k := Expect(py, s, 1, if s[0].op == py.loadGlobal then py.loadConst else py.loadGlobal);
      if k.Some? then Some(k.value - 1) else None
  }

  /** One of the two loads names the helper, the other holds an int. */
  predicate LoadsHelper(py: Python, s: seq<Instr>, a: nat)
    requires 0 < a < |s|
  {
    if s[0].op == py.loadGlobal then NamesHelper(s[0]) && HoldsInt(s[a])
    else NamesHelper(s[a]) && HoldsInt(s[0])
  }

  /** The position after the CALL and POP_TOP that must follow position `a`. */
  function CallAndPop(py: Python, s: seq<Instr>, a: nat): (r: Option<nat>)
    requires a < |s|
    ensures r.Some? ==> a < r.value <= |s|
  {
    var b := Expect(py, s, a + 1, py.call);
    if b.None? then None else Expect(py, s, b.value, py.popTop)
  }

  /** Length of the breakpoint sequence at the head of `s`, 0 if there is none. */
  function Match(py: Python, s: seq<Instr>): (n: nat)
    ensures n <= |s|
  {
    var a := SecondLoad(py, s);
    if a.None? || !LoadsHelper(py, s, a.value) then 0
    else
      var end := CallAndPop(py, s, a.value);
      if end.Some? then end.value else 0
  }

  method MatchBreakpointSequence(py: Python, s: seq<Instr>, start: nat) returns (n: nat)
    requires start <= |s|
    ensures n == Match(py, s[start..])
  {
    if start >= |s| {
      return 0;
    }
    var rest := s[start..];
    var first := rest[0];
    var loadGlobal, loadConst;
    var a: Option<nat>;
    if first.op == py.loadGlobal {
      loadGlobal := first;
      a := ReadExpected(py, rest, 1, py.loadConst);
      if a.None? {
        return 0;
      }
      loadConst := rest[a.value - 1];
    } else if first.op == py.loadConst {
      loadConst := first;
      a := ReadExpected(py, rest, 1, py.loadGlobal);
      if a.None? {
        return 0;
      }
      loadGlobal := rest[a.value - 1];
    } else {
      return 0;
    }
    var b := ReadExpected(py, rest, a.value, py.call);
    if b.None? {
      return 0;
    }
    var end := ReadExpected(py, rest, b.value, py.popTop);
    if !(NamesHelper(loadGlobal) && HoldsInt(loadConst) && end.Some?) {
      return 0;
    }
    return end.value;
  }

  function Strip(py: Python, s: seq<Instr>): seq<Instr> {
    if s == [] then []
    else if Match(py, s) > 0 then Strip(py, s[Match(py, s)..])
    else [s[0]] + Strip(py, s[1..])
  }

  lemma StripStep(py: Python, s: seq<Instr>, n: nat)
    requires s != [] && n == Match(py, s)
    ensures Strip(py, s) == if n > 0 then Strip(py, s[n..]) else [s[0]] + Strip(py, s[1..])
  {
  }

  lemma StripFrom(py: Python, s: seq<Instr>, i: nat, n: nat, cleaned: seq<Instr>)
    requires i < |s| && n == Match(py, s[i..])
    ensures n > 0 ==> i + n <= |s| && cleaned + Strip(py, s[i..]) == cleaned + Strip(py, s[i + n..])
    ensures n == 0 ==> cleaned + Strip(py, s[i..]) == (cleaned + [s[i]]) + Strip(py, s[i + 1..])
  {
    StripStep(py, s[i..], n);
    assert s[i..][n..] == s[i + n..] && s[i..][1..] == s[i + 1..];
  }

  method RemoveBreakpoints(py: Python, s: seq<Instr>) returns (cleaned: seq<Instr>)
    ensures cleaned == Strip(py, s)
  {
    hide Match;
    cleaned := [];
    var i := 0;
    while i < |s|
      invariant 0 <= i <= |s|
      invariant Strip(py, s) == cleaned + Strip(py, s[i..])
    {
      var n := MatchBreakpointSequence(py, s, i);
      StripFrom(py, s, i, n, cleaned);
      if n > 0 {
        i := i + n;
      } else {
        cleaned := cleaned + [s[i]];
        i := i + 1;
      }
    }
  }

  // ----- the shape of a match -------------------------------------------------------

  /** LOAD_GLOBAL of the helper's name. */
  predicate IsHelperLoad(py: Python, i: Instr) {
    i.op == py.loadGlobal && i.argval == NameOperand("_dapper_breakpoint")
  }

  /** LOAD_CONST of an int, or of a bool, which is one. */
  predicate IsIntLoad(py: Python, i: Instr) {
    && i.op == py.loadConst
    && match i.argval
       case ConstOperand(IntConst(_)) => true
       case ConstOperand(BoolConst(_)) => true
       case _ => false
  }

  /** Four real instructions at 0 < a < b < c with only CACHE entries between them. */
  predicate Shape(py: Python, s: seq<Instr>, a: nat, b: nat, c: nat) {
    && 0 < a < b < c < |s|
    && ((IsHelperLoad(py, s[0]) && IsIntLoad(py, s[a])) || (IsIntLoad(py, s[0]) && IsHelperLoad(py, s[a])))
    && s[b].op == py.call && s[c].op == py.popTop
    && CachesBetween(py, s, 1, a) && CachesBetween(py, s, a + 1, b) && CachesBetween(py, s, b + 1, c)
  }

  lemma {:induction false} SkipsCaches(py: Python, s: seq<Instr>, i: nat)
    requires i <= |s|
    ensures var k := SkipCaches(py, s, i);
      CachesBetween(py, s, i, k) && (k < |s| ==> s[k].op != py.cache)
    decreases |s| - i
  {
    if i < |s| && s[i].op == py.cache {
      SkipsCaches(py, s, i + 1);
    }
  }

  lemma ExpectAt(py: Python, s: seq<Instr>, start: nat, k: nat)
    requires start <= k < |s| && CachesBetween(py, s, start, k) && s[k].op != py.cache
    ensures Expect(py, s, start, s[k].op) == Some(k + 1)
  {
    SkipsCaches(py, s, start);
    assert SkipCaches(py, s, start) >= k;
  }

  lemma ShapeMatches(py: Python, s: seq<Instr>, a: nat, b: nat, c: nat)
    requires py.Valid() && Shape(py, s, a, b, c)
    ensures Match(py, s) == c + 1
  {
    ExpectAt(py, s, 1, a);
    ExpectAt(py, s, a + 1, b);
    ExpectAt(py, s, b + 1, c);
  }

  lemma MatchHasShape(py: Python, s: seq<Instr>) returns (a: nat, b: nat, c: nat)
    requires py.Valid() && Match(py, s) > 0
    ensures Shape(py, s, a, b, c) && Match(py, s) == c + 1
  {
    a := SecondLoad(py, s).value;
    assert CallAndPop(py, s, a).Some?;
    b := Expect(py, s, a + 1, py.call).value - 1;
    c := Expect(py, s, b + 1, py.popTop).value - 1;
    SkipsCaches(py, s, 1);
    SkipsCaches(py, s, a + 1);
    SkipsCaches(py, s, b + 1);
  }

  /** Code that never loads the helper's name is never touched, whatever it calls. */
  lemma {:induction false} OtherCallsStay(py: Python, s: seq<Instr>)
    requires py.Valid()
    requires forall i :: 0 <= i < |s| && s[i].op == py.loadGlobal ==> s[i].argval != NameOperand("_dapper_breakpoint")
    ensures Strip(py, s) == s
  {
    if s != [] {
      if Match(py, s) > 0 {
        var a, b, c := MatchHasShape(py, s);
        assert false;
      }
      hide Match;
      assert forall i :: 0 <= i < |s[1..]| ==> s[1..][i] == s[i + 1];
      OtherCallsStay(py, s[1..]);
      assert s == [s[0]] + s[1..];
      StripStep(py, s, 0);
    }
  }

  /** Nor is code that loads no int or bool constant. */
  lemma {:induction false} CallsWithoutIntsStay(py: Python, s: seq<Instr>)
    requires py.Valid()
    requires forall i :: 0 <= i < |s| && s[i].op == py.loadConst ==>
      match s[i].argval
      case ConstOperand(IntConst(_)) => false
      case ConstOperand(BoolConst(_)) => false
      case _ => true
    ensures Strip(py, s) == s
  {
    if s != [] {
      if Match(py, s) > 0 {
        var a, b, c := MatchHasShape(py, s);
        assert false;
      }
      hide Match;
      assert forall i :: 0 <= i < |s[1..]| ==> s[1..][i] == s[i + 1];
      CallsWithoutIntsStay(py, s[1..]);
      assert s == [s[0]] + s[1..];
      StripStep(py, s, 0);
    }
  }

  // ----- stripping undoes weaving ---------------------------------------------------

  predicate HasNoSequence(py: Python, s: seq<Instr>) {
    forall i :: 0 <= i < |s| ==> Match(py, s[i..]) == 0
  }

  lemma CheckMatches(py: Python, pools: Pools, line: int, rest: seq<Instr>)
    requires py.Valid()
    ensures var check := CheckIn(py, pools, line);
            Match(py, check + rest) == |check| && (check + rest)[|check|..] == rest
  {
    var check := CheckIn(py, pools, line);
    var a := 1 + py.Emitted(py.loadGlobal);
    ShapeMatches(py, check + rest, a, a + 1, a + 2 + py.Emitted(py.call));
  }

  /** A check starts at position `n`: its loads with the CACHE entries between them. */
  predicate CheckStarts(py: Python, w: seq<Instr>, n: nat) {
    var k := n + 1 + py.Emitted(py.loadGlobal);
    k < |w| && w[n].op == py.loadGlobal && w[k].op == py.loadConst && CachesBetween(py, w, n + 1, k)
  }

  lemma CheckStartsAfter(py: Python, first: Instr, s: seq<Instr>, n: nat)
    requires CheckStarts(py, s, n)
    ensures CheckStarts(py, [first] + s, n + 1)
  {
    assert forall i :: 0 < i <= |s| ==> ([first] + s)[i] == s[i - 1];
  }

  lemma CheckHead(py: Python, pools: Pools, line: int, rest: seq<Instr>)
    ensures CheckStarts(py, CheckIn(py, pools, line) + rest, 0)
  {
  }

  lemma CheckAfterHead(py: Python, pools: Pools, first: Instr, line: int, tail: seq<Instr>, w: seq<Instr>)
    requires w != [] && w[0] == first && w[1..] == CheckAtIn(py, pools, Some(line)) + tail
    ensures CheckStarts(py, w, 1)
  {
    hide CheckIn, CheckStarts;
    CheckHead(py, pools, line, tail);
    CheckStartsAfter(py, first, w[1..], 0);
    assert w == [first] + w[1..];
  }

  /** `w` is `instrs` up to position `n`, where a check starts if there is one at all. */
  predicate UpToCheck(py: Python, w: seq<Instr>, instrs: seq<Instr>, n: nat, found: bool) {
    && n <= |instrs| && n <= |w| && (forall i :: 0 <= i < n ==> w[i] == instrs[i])
    && (if found then n > 0 && CheckStarts(py, w, n) else w == instrs)
  }

  lemma UpToCheckCons(py: Python, w: seq<Instr>, instrs: seq<Instr>, n: nat, found: bool)
    requires w != [] && instrs != [] && w[0] == instrs[0] && UpToCheck(py, w[1..], instrs[1..], n, found)
    ensures UpToCheck(py, w, instrs, n + 1, found)
  {
    assert forall i :: 0 < i < n + 1 ==> w[i] == w[1..][i - 1] && instrs[i] == instrs[1..][i - 1];
    assert w == [w[0]] + w[1..] && instrs == [instrs[0]] + instrs[1..];
    if found {
      CheckStartsAfter(py, w[0], w[1..], n);
    }
  }

  /** Up to its first check the woven list is the original one. */
  lemma {:induction false} WovenPrefix(
      py: Python, pools: Pools, instrs: seq<Instr>, sites: seq<Option<int>>) returns (n: nat, found: bool)
    requires |sites| == |instrs|
    ensures UpToCheck(py, WeaveIn(py, pools, instrs, sites), instrs, n, found)
  {
    if instrs == [] {
      n, found := 0, false;
    } else {
      hide WeaveIn, CheckAtIn;
      var w := WeaveIn(py, pools, instrs, sites);
      WovenTail(py, pools, instrs, sites);
      if sites[0].Some? {
        n, found := 1, true;
        CheckAfterHead(py, pools, instrs[0], sites[0].value, WeaveIn(py, pools, instrs[1..], sites[1..]), w);
      } else {
        hide UpToCheck;
        n, found := WovenPrefix(py, pools, instrs[1..], sites[1..]);
        UpToCheckCons(py, w, instrs, n, found);
        n := n + 1;
      }
    }
  }

  /** A match that starts on an original instruction never reaches into a check, so it was
      already there before the injection. */
  lemma NoStraddle(py: Python, pools: Pools, instrs: seq<Instr>, sites: seq<Option<int>>)
    requires py.Valid() && |sites| == |instrs| && instrs != []
    ensures Match(py, WeaveIn(py, pools, instrs, sites)) > 0 ==> Match(py, instrs) > 0
  {
    hide Match, WeaveIn, CheckIn;
    var w := WeaveIn(py, pools, instrs, sites);
    if Match(py, w) > 0 {
      var a, b, c := MatchHasShape(py, w);
      var n, found := WovenPrefix(py, pools, instrs, sites);
      if found && n <= c {
        assert false;
      }
      assert forall i :: 0 <= i <= c ==> w[i] == instrs[i] by {
        if found {
          assert forall i :: 0 <= i < n ==> w[i] == w[..n][i] == instrs[..n][i] == instrs[i];
        }
      }
      ShapeMatches(py, instrs, a, b, c);
    }
  }

  lemma StripCheck(py: Python, pools: Pools, line: int, rest: seq<Instr>)
    requires py.Valid()
    ensures Strip(py, CheckIn(py, pools, line) + rest) == Strip(py, rest)
  {
    var check := CheckIn(py, pools, line);
    CheckMatches(py, pools, line, rest);
    StripStep(py, check + rest, |check|);
  }

  lemma NoSequenceInTail(py: Python, s: seq<Instr>)
    requires HasNoSequence(py, s) && s != []
    ensures HasNoSequence(py, s[1..])
  {
    forall i | 0 <= i < |s[1..]| ensures Match(py, s[1..][i..]) == 0 {
      assert s[1..][i..] == s[i + 1..];
    }
  }

  lemma StripKeepsOriginal(py: Python, pools: Pools, instrs: seq<Instr>, sites: seq<Option<int>>)
    requires py.Valid() && |sites| == |instrs| > 0 && HasNoSequence(py, instrs)
    ensures var w := WeaveIn(py, pools, instrs, sites);
            w != [] && Strip(py, w) == [instrs[0]] + Strip(py, w[1..])
  {
    assert instrs[0..] == instrs;
    NoStraddle(py, pools, instrs, sites);
    WovenTail(py, pools, instrs, sites);
    StripStep(py, WeaveIn(py, pools, instrs, sites), 0);
  }

  /** Stripping inverts weaving, whatever the sites. */
  lemma {:induction false} StripWoven(py: Python, pools: Pools, instrs: seq<Instr>, sites: seq<Option<int>>)
    requires py.Valid() && |sites| == |instrs| && HasNoSequence(py, instrs)
    ensures Strip(py, WeaveIn(py, pools, instrs, sites)) == instrs
  {
    if instrs != [] {
      StripKeepsOriginal(py, pools, instrs, sites);
      WovenTail(py, pools, instrs, sites);
      NoSequenceInTail(py, instrs);
      StripWoven(py, pools, instrs[1..], sites[1..]);
      if sites[0].Some? {
        StripCheck(py, pools, sites[0].value, WeaveIn(py, pools, instrs[1..], sites[1..]));
      }
    }
  }

  // ----- lists that already hold sequences ------------------------------------------

  /** No check is woven into the middle of a sequence that a removal would find. */
  predicate OutsideSequences(py: Python, instrs: seq<Instr>, sites: seq<Option<int>>)
    requires |sites| == |instrs|
    decreases |instrs|
  {
    if instrs == [] then true
    else
      var n := if Match(py, instrs) > 0 then Match(py, instrs) else 1;
      && (forall i :: 0 <= i < n - 1 ==> sites[i].None?)
      && OutsideSequences(py, instrs[n..], sites[n..])
  }

  /** Up to the first site, and that instruction included, weaving changes nothing. */
  lemma {:induction false} WovenFront(
      py: Python, pools: Pools, instrs: seq<Instr>, sites: seq<Option<int>>, n: nat)
    requires |sites| == |instrs| && 0 < n <= |instrs| && forall i :: 0 <= i < n - 1 ==> sites[i].None?
    ensures WeaveIn(py, pools, instrs, sites) ==
      instrs[..n] + (CheckAtIn(py, pools, sites[n - 1]) + WeaveIn(py, pools, instrs[n..], sites[n..]))
  {
    hide CheckAtIn;
    var after := CheckAtIn(py, pools, sites[n - 1]) + WeaveIn(py, pools, instrs[n..], sites[n..]);
    if n == 1 {
      assert instrs[..1] == [instrs[0]];
    } else {
      NoSiteFirst(py, pools, instrs, sites);
      assert forall i :: 0 <= i < n - 2 ==> sites[1..][i] == sites[i + 1];
      WovenFront(py, pools, instrs[1..], sites[1..], n - 1);
      assert instrs[1..][n - 1..] == instrs[n..] && sites[1..][n - 1..] == sites[n..];
      assert instrs[..n] == [instrs[0]] + instrs[1..][..n - 1];
      assert [instrs[0]] + (instrs[1..][..n - 1] + after) == instrs[..n] + after;
    }
  }

  lemma NoSiteFirst(py: Python, pools: Pools, instrs: seq<Instr>, sites: seq<Option<int>>)
    requires |sites| == |instrs| > 0 && sites[0].None?
    ensures WeaveIn(py, pools, instrs, sites) == [instrs[0]] + WeaveIn(py, pools, instrs[1..], sites[1..])
  {
    WovenTail(py, pools, instrs, sites);
    var w := WeaveIn(py, pools, instrs, sites);
    assert w == [w[0]] + w[1..];
  }

  /** A match does not depend on what follows it. */
  lemma MatchByFront(py: Python, s: seq<Instr>, t: seq<Instr>)
    requires py.Valid() && Match(py, s) > 0 && Match(py, s) <= |t|
    requires s[..Match(py, s)] == t[..Match(py, s)]
    ensures Match(py, t) == Match(py, s)
  {
    var n := Match(py, s);
    var a, b, c := MatchHasShape(py, s);
    hide Match;
    assert forall i :: 0 <= i < n ==> s[..n][i] == s[i] && t[..n][i] == t[i];
    assert forall i :: 0 <= i < n ==> s[i] == t[i];
    ShapeMatches(py, t, a, b, c);
  }

  lemma StripAfterCheck(py: Python, pools: Pools, site: Option<int>, rest: seq<Instr>)
    requires py.Valid()
    ensures Strip(py, CheckAtIn(py, pools, site) + rest) == Strip(py, rest)
  {
    if site.Some? {
      StripCheck(py, pools, site.value, rest);
    } else {
      assert [] + rest == rest;
    }
  }

  /** Stripping a woven list gives what stripping the list gives: checks woven outside the
      sequences it already holds leave no trace, and those sequences go as before. */
  lemma {:induction false} StripWovenIsStrip(
      py: Python, pools: Pools, instrs: seq<Instr>, sites: seq<Option<int>>)
    requires py.Valid() && |sites| == |instrs| && OutsideSequences(py, instrs, sites)
    ensures Strip(py, WeaveIn(py, pools, instrs, sites)) == Strip(py, instrs)
    decreases |instrs|
  {
    if instrs != [] {
      hide Match, WeaveIn, CheckAtIn, Strip;
      var m := Match(py, instrs);
      var n := if m > 0 then m else 1;
      var w := WeaveIn(py, pools, instrs, sites);
      var rest := WeaveIn(py, pools, instrs[n..], sites[n..]);
      WovenFront(py, pools, instrs, sites, n);
      StripWovenIsStrip(py, pools, instrs[n..], sites[n..]);
      StripAfterCheck(py, pools, sites[n - 1], rest);
      var after := CheckAtIn(py, pools, sites[n - 1]) + rest;
      assert w[..n] == instrs[..n] && w[n..] == after;
      StripStep(py, instrs, m);
      if m > 0 {
        MatchByFront(py, instrs, w);
        StripStep(py, w, m);
      } else {
        NoStraddle(py, pools, instrs, sites);
        StripStep(py, w, 0);
        assert w[0] == w[..1][0] == instrs[..1][0] == instrs[0];
      }
    }
  }
}
