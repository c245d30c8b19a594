/**
  Inline caches (Python 3.11 and later): when a woven list still has every CACHE entry where
  the interpreter skips one, and which breakpoint lines come between an opcode and its own.
 */
module InlineCaches {
  import opened Wrappers
  import opened Bytecode
  import opened Injector
  import opened Wordcode

  /** Some check lands between an opcode and its CACHE entries. */
  predicate SplitsCaches(py: Python, instrs: seq<Instr>, sites: seq<Option<int>>, owed: nat)
    requires |sites| == |instrs|
  {
    instrs != []
    && ((sites[0].Some? && Owed(py, instrs[0].op, owed) > 0)
        || SplitsCaches(py, instrs[1..], sites[1..], Owed(py, instrs[0].op, owed)))
  }

  predicate HasSite(sites: seq<Option<int>>) {
    sites != [] && (sites[0].Some? || HasSite(sites[1..]))
  }

  /** `n` CACHE entries fill `n` of the slots owed, and something else fills none. */
  lemma {:induction false} AlignedAfterCaches(py: Python, run: seq<Instr>, owed: nat, rest: seq<Instr>)
    requires py.Valid() && owed >= |run| && forall i :: 0 <= i < |run| ==> run[i] == CacheInstr(py)
    ensures Aligned(py, run + rest, owed) <==> Aligned(py, rest, owed - |run|)
  {
    if run == [] {
      assert run + rest == rest;
    } else {
      AlignedAfterCaches(py, run[1..], owed - 1, rest);
      assert (run + rest)[1..] == run[1..] + rest;
    }
  }

  lemma AlignedCons(py: Python, i: Instr, rest: seq<Instr>, owed: nat)
    requires i.op != py.cache
    ensures Aligned(py, [i] + rest, owed) <==> owed == 0 && Aligned(py, rest, py.caches(i.op))
  {
    assert ([i] + rest)[1..] == rest;
  }

  /** After an opcode of a check, its emitted entries fill its slots exactly when they are as
      many. */
  lemma AlignedOpcode(py: Python, i: Instr, next: Instr, rest: seq<Instr>, owed: nat)
    requires py.Valid() && i.op != py.cache && next.op != py.cache
    ensures Aligned(py, [i] + (CacheRun(py, i.op) + ([next] + rest)), owed) <==>
            owed == 0 && py.Emitted(i.op) == py.caches(i.op) && Aligned(py, rest, py.caches(next.op))
  {
    hide Aligned;
    AlignedCons(py, i, CacheRun(py, i.op) + ([next] + rest), owed);
    AlignedAfterCaches(py, CacheRun(py, i.op), py.caches(i.op), [next] + rest);
    AlignedCons(py, next, rest, py.caches(i.op) - py.Emitted(i.op));
  }

  /** A check can be read back exactly when nothing is owed before it and its opcodes got the
      CACHE entries that the interpreter skips. */
  lemma AlignedCheck(py: Python, pools: Pools, line: int, rest: seq<Instr>, owed: nat)
    requires py.Valid()
    ensures Aligned(py, CheckIn(py, pools, line) + rest, owed) <==>
            owed == 0 && py.EmitsCaches() && Aligned(py, rest, 0)
  {
    hide Aligned, CheckWith, CacheRun;
    var g, k := py.GlobalArg(IndexOf(pools.names, HELPER)), IndexOf(pools.consts, IntConst(line));
    var lg, lc := LoadHelperInstr(py, g), LoadLineInstr(py, k, line);
    var call, pop := Instr(py.call, Some(1), NoOperand), Instr(py.popTop, None, NoOperand);
    CheckParts(py, line, g, k);
    var fromCall := [call] + (CacheRun(py, py.call) + ([pop] + rest));
    assert CheckIn(py, pools, line) + rest == [lg] + (CacheRun(py, py.loadGlobal) + ([lc] + fromCall));
    AlignedOpcode(py, lg, lc, fromCall, owed);
    AlignedOpcode(py, call, pop, rest, 0);
  }

  /** The woven list has all its CACHE entries exactly when the original has, no check comes
      between an opcode and its own, and checks, if there are any, bring theirs. */
  lemma {:induction false} WovenAligned(
      py: Python, pools: Pools, instrs: seq<Instr>, sites: seq<Option<int>>, owed: nat)
    requires py.Valid() && |sites| == |instrs|
    ensures Aligned(py, WeaveIn(py, pools, instrs, sites), owed) <==>
      Aligned(py, instrs, owed) && !SplitsCaches(py, instrs, sites, owed) && (HasSite(sites) ==> py.EmitsCaches())
  {
    if instrs != [] {
      hide WeaveIn, CheckIn;
      var w := WeaveIn(py, pools, instrs, sites);
      var tail := WeaveIn(py, pools, instrs[1..], sites[1..]);
      var next := Owed(py, instrs[0].op, owed);
      WovenTail(py, pools, instrs, sites);
      assert Aligned(py, w, owed) <==> (owed > 0 ==> w[0] == CacheInstr(py)) && Aligned(py, w[1..], next);
      WovenAligned(py, pools, instrs[1..], sites[1..], next);
      if sites[0].Some? {
        AlignedCheck(py, pools, sites[0].value, tail, next);
      }
    }
  }

  // ----- which breakpoint lines split caches ----------------------------------------

  /** CACHE entries owed just before instruction `i`. */
  function OwedBefore(py: Python, instrs: seq<Instr>, i: nat): nat
    requires i <= |instrs|
  {
    if i == 0 then 0 else Owed(py, instrs[i - 1].op, OwedBefore(py, instrs, i - 1))
  }

  lemma {:induction false} AlignedAt(py: Python, instrs: seq<Instr>, i: nat)
    requires i <= |instrs| && Aligned(py, instrs, 0)
    ensures Aligned(py, instrs[i..], OwedBefore(py, instrs, i))
  {
    if i == 0 {
      assert instrs[0..] == instrs;
    } else {
      AlignedAt(py, instrs, i - 1);
      assert instrs[i - 1..][1..] == instrs[i..];
    }
  }

  lemma OwedIsCache(py: Python, instrs: seq<Instr>, i: nat)
    requires i < |instrs| && Aligned(py, instrs, 0)
    ensures OwedBefore(py, instrs, i) > 0 ==> instrs[i] == CacheInstr(py)
  {
    AlignedAt(py, instrs, i);
    var rest := instrs[i..];
    assert rest[0] == instrs[i];
  }

  lemma {:induction false} SplitsSomewhere(py: Python, instrs: seq<Instr>, sites: seq<Option<int>>, i: nat)
    requires |sites| == |instrs| && i <= |instrs|
    ensures SplitsCaches(py, instrs[i..], sites[i..], OwedBefore(py, instrs, i)) <==>
      exists k :: i <= k < |sites| && sites[k].Some? && OwedBefore(py, instrs, k + 1) > 0
    decreases |instrs| - i
  {
    if i < |instrs| {
      SplitsSomewhere(py, instrs, sites, i + 1);
      assert instrs[i..][1..] == instrs[i + 1..] && sites[i..][1..] == sites[i + 1..];
    }
  }

  /** CACHE entries carry no line of their own. */
  predicate CachesUnmarked(py: Python, instrs: seq<Instr>, marks: seq<LineMark>) {
    |marks| == |instrs|
    && forall i :: 0 <= i < |marks| && instrs[i].op == py.cache ==> marks[i] == LineMark(None, None)
  }

  /** Exactly the breakpoint lines whose first instruction is one of the four preferred
      opcodes and has inline caches (LOAD_GLOBAL, in practice) break the injected code. */
  lemma SplitsExactlyAtCachedFirstLoads(py: Python, instrs: seq<Instr>, marks: seq<LineMark>, lines: set<int>)
    requires py.Valid() && Aligned(py, instrs, 0) && CachesUnmarked(py, instrs, marks)
    ensures SplitsCaches(py, instrs, Sites(FindPoints(py, instrs, marks, lines, |instrs|), |instrs|), 0) <==>
      exists line, i: nat :: line in lines && FirstOn(marks, line, i) && CachedLoad(py, instrs, i)
  {
    var points := FindPoints(py, instrs, marks, lines, |instrs|);
    var sites := Sites(points, |instrs|);
    var at := PointsAreFirstInstructions(py, instrs, marks, lines, |instrs|);
    SplitsSomewhere(py, instrs, sites, 0);
    assert instrs[0..] == instrs && sites[0..] == sites;
    forall k: nat | k < |sites| && sites[k].Some? && OwedBefore(py, instrs, k + 1) > 0
      ensures exists line, i: nat :: line in lines && FirstOn(marks, line, i) && CachedLoad(py, instrs, i)
    {
      var q := SiteAtFrom(points, k + 1);
      FirstIsNoCache(py, instrs, marks, points[q].line, at[q]);
      assert CachedLoad(py, instrs, at[q]);
    }
    forall line, i: nat | line in lines && FirstOn(marks, line, i) && CachedLoad(py, instrs, i)
      ensures exists k :: 0 <= k < |sites| && sites[k].Some? && OwedBefore(py, instrs, k + 1) > 0
    {
      FirstIsNoCache(py, instrs, marks, line, i);
      CachedLoadIsChecked(py, instrs, marks, lines, line, i);
      assert sites[i] == Some(line);
      assert OwedBefore(py, instrs, i + 1) == py.caches(instrs[i].op);
    }
  }

  predicate CachedLoad(py: Python, instrs: seq<Instr>, i: nat) {
    i < |instrs| && Preferred(py, instrs[i].op) && py.caches(instrs[i].op) > 0
  }

  lemma CachedLoadIsChecked(
      py: Python, instrs: seq<Instr>, marks: seq<LineMark>, lines: set<int>, line: int, i: nat)
    requires |marks| == |instrs| && line in lines && FirstOn(marks, line, i) && CachedLoad(py, instrs, i)
    ensures Sites(FindPoints(py, instrs, marks, lines, |instrs|), |instrs|)[i] == Some(line)
  {
    LineIsCheckedUnlessStarved(py, instrs, marks, lines, line, i);
    assert !Starved(py, instrs, marks, lines, i);
  }

  lemma FirstIsNoCache(py: Python, instrs: seq<Instr>, marks: seq<LineMark>, line: int, i: nat)
    requires py.Valid() && Aligned(py, instrs, 0) && CachesUnmarked(py, instrs, marks)
    requires FirstOn(marks, line, i)
    ensures OwedBefore(py, instrs, i) == 0
  {
    OwedIsCache(py, instrs, i);
    FirstIsMarked(marks, line, i);
  }

  lemma FirstIsMarked(marks: seq<LineMark>, line: int, i: nat)
    requires FirstOn(marks, line, i)
    ensures marks[i] != LineMark(None, None)
  {
    if i > 0 {
      assert LineAt(marks, i - 1) != Some(line);
    }
  }
}
