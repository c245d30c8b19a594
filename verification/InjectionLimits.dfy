/**
  How far an injection can go before its bytes no longer mean what was woven: the one-byte
  arguments, the EXTENDED_ARG prefixes, and which breakpoint lines run into them.
 */
module InjectionLimits {
  import opened Wrappers
  import opened Bytecode
  import opened Injector
  import opened InlineCaches
  import opened Wordcode

  lemma NameLimit(py: Python, pools: Pools)
    requires py.Valid() && HELPER in pools.names
    ensures var globalArg := py.GlobalArg(IndexOf(pools.names, HELPER));
      py.OperandOf(py.loadGlobal, globalArg % 256, pools) == NameOperand(HELPER) <==> globalArg < 256
  {
    var n := IndexOf(pools.names, HELPER);
    var arg := py.GlobalArg(n) % 256;
    if py.GlobalArg(n) >= 256 {
      assert arg / py.GlobalScale() < n;
    } else {
      assert arg / py.GlobalScale() == n;
    }
  }

  lemma ConstantLimit(py: Python, pools: Pools, line: int)
    requires py.Valid() && IntConst(line) in pools.consts
    ensures var constArg := IndexOf(pools.consts, IntConst(line));
      py.OperandOf(py.loadConst, constArg % 256, pools) == ConstOperand(IntConst(line)) <==> constArg < 256
  {
    var n := IndexOf(pools.consts, IntConst(line));
    if n >= 256 {
      assert pools.consts[n % 256] != IntConst(line);
    }
  }

  /** The byte limit is exact: after encoding, the two loads of a check denote the helper and
      the line exactly when their arguments fit a byte.  A truncated index is an earlier one,
      and neither value occurs anywhere earlier. */
  lemma ByteLimitIsExact(py: Python, pools: Pools, line: int)
    requires py.Valid() && Supplies(pools, line)
    ensures var globalArg := py.GlobalArg(IndexOf(pools.names, HELPER));
      var constArg := IndexOf(pools.consts, IntConst(line));
      && (DecodeOne(py, py.loadGlobal, globalArg % 256, 0, pools).argval == NameOperand(HELPER) <==> globalArg < 256)
      && (DecodeOne(py, py.loadConst, constArg % 256, 0, pools).argval == ConstOperand(IntConst(line)) <==> constArg < 256)
  {
    NameLimit(py, pools);
    ConstantLimit(py, pools, line);
  }

  // ----- the exact condition for the injected bytes ---------------------------------

  /** Every non-zero EXTENDED_ARG is followed by the instruction it extends. */
  predicate PrefixesUsed(py: Python, instrs: seq<Instr>) {
    forall i :: 0 <= i < |instrs| && NextPrefix(py, instrs[i]) != 0 ==>
      i + 1 < |instrs| && py.hasArg(instrs[i + 1].op)
  }

  /** No check separates a non-zero EXTENDED_ARG from the instruction it belongs to. */
  predicate KeepsPrefixes(py: Python, instrs: seq<Instr>, sites: seq<Option<int>>)
    requires |sites| == |instrs|
  {
    forall i :: 0 <= i < |instrs| && sites[i].Some? ==> NextPrefix(py, instrs[i]) == 0
  }

  /** The indices of a check for `line` fit the single byte they are stored in. */
  predicate Fits(py: Python, pools: Pools, line: int) {
    py.GlobalArg(IndexOf(pools.names, HELPER)) < 256 && IndexOf(pools.consts, IntConst(line)) < 256
  }

  predicate AllFit(py: Python, pools: Pools, sites: seq<Option<int>>) {
    forall i :: 0 <= i < |sites| && sites[i].Some? ==>
      Supplies(pools, sites[i].value) && Fits(py, pools, sites[i].value)
  }

  lemma {:induction false} CanonicalFlat(py: Python, a: seq<Instr>, b: seq<Instr>, pools: Pools)
    requires py.Valid() && Canonical(py, b, 0, pools)
    requires forall i :: 0 <= i < |a| ==> CanonicalOne(py, a[i], 0, pools) && a[i].op != py.extendedArg
    ensures Canonical(py, a + b, 0, pools)
  {
    if a == [] {
      assert a + b == b;
    } else {
      CanonicalFlat(py, a[1..], b, pools);
      assert (a + b)[1..] == a[1..] + b;
    }
  }

  lemma CheckIsCanonical(py: Python, pools: Pools, line: int)
    requires py.Valid() && Supplies(pools, line) && Fits(py, pools, line)
    ensures forall i {:trigger CheckIn(py, pools, line)[i]} :: 0 <= i < |CheckIn(py, pools, line)| ==>
      CanonicalOne(py, CheckIn(py, pools, line)[i], 0, pools)
      && CheckIn(py, pools, line)[i].op != py.extendedArg
  {
    assert py.OperandOf(py.loadGlobal, py.GlobalArg(IndexOf(pools.names, HELPER)), pools) == NameOperand(HELPER);
  }

  lemma {:induction false} WovenIsCanonical(
      py: Python, instrs: seq<Instr>, sites: seq<Option<int>>, prefix: int, p: Pools, q: Pools)
    requires py.Valid() && |sites| == |instrs| && Extends(p, q)
    requires Canonical(py, instrs, prefix, p) && InRange(py, instrs, p)
    requires KeepsPrefixes(py, instrs, sites) && AllFit(py, q, sites)
    ensures Canonical(py, WeaveIn(py, q, instrs, sites), prefix, q)
  {
    if instrs != [] {
      var tail := WeaveIn(py, q, instrs[1..], sites[1..]);
      assert forall i :: 0 <= i < |instrs[1..]| ==> instrs[1..][i] == instrs[i + 1] && sites[1..][i] == sites[i + 1];
      assert py.Denotes(instrs[0], p) != Unresolved;
      DenotationStable(py, instrs[0], p, q);
      WovenIsCanonical(py, instrs[1..], sites[1..], NextPrefix(py, instrs[0]), p, q);
      WovenTail(py, q, instrs, sites);
      if sites[0].Some? {
        CheckIsCanonical(py, q, sites[0].value);
        CanonicalFlat(py, CheckIn(py, q, sites[0].value), tail, q);
      }
    }
  }

  predicate AllSupplied(pools: Pools, sites: seq<Option<int>>) {
    forall i :: 0 <= i < |sites| && sites[i].Some? ==> Supplies(pools, sites[i].value)
  }

  lemma {:induction false} CanonicalTail(py: Python, a: seq<Instr>, b: seq<Instr>, pools: Pools)
    requires py.Valid() && Canonical(py, a + b, 0, pools)
    requires forall i :: 0 <= i < |a| ==> a[i].op != py.extendedArg
    ensures Canonical(py, b, 0, pools)
    ensures forall i :: 0 <= i < |a| ==> CanonicalOne(py, a[i], 0, pools)
  {
    if a == [] {
      assert a + b == b;
    } else {
      assert (a + b)[1..] == a[1..] + b;
      CanonicalTail(py, a[1..], b, pools);
      assert forall i :: 0 < i < |a| ==> a[i] == a[1..][i - 1];
    }
  }

  /** A check that reads back under `prefix` has arguments that fit, or inherits the prefix,
      and what follows it starts without one. */
  lemma CheckReadsBack(py: Python, pools: Pools, line: int, rest: seq<Instr>, prefix: int)
    requires py.Valid() && Supplies(pools, line) && prefix >= 0
    requires Canonical(py, CheckIn(py, pools, line) + rest, prefix, pools)
    ensures Canonical(py, rest, 0, pools) && (prefix == 0 ==> Fits(py, pools, line))
  {
    var check := CheckIn(py, pools, line);
    var w := check + rest;
    assert w[1..] == check[1..] + rest;
    assert NextPrefix(py, w[0]) == 0;
    CanonicalTail(py, check[1..], rest, pools);
    var k := py.Emitted(py.loadGlobal);
    assert check[1..][k] == Instr(py.loadConst, Some(IndexOf(pools.consts, IntConst(line))), ConstOperand(IntConst(line)));
  }

  lemma {:induction false} CanonicalNeedsLimits(
      py: Python, instrs: seq<Instr>, sites: seq<Option<int>>, prefix: int, p: Pools, q: Pools)
    requires py.Valid() && |sites| == |instrs| && prefix >= 0 && AllSupplied(q, sites)
    requires Canonical(py, instrs, prefix, p) && PrefixesUsed(py, instrs)
    requires Canonical(py, WeaveIn(py, q, instrs, sites), prefix, q)
    ensures KeepsPrefixes(py, instrs, sites) && AllFit(py, q, sites)
  {
    if instrs != [] {
      hide WeaveIn, CheckIn, Supplies, Fits, CanonicalOne, NextPrefix;
      var tail := WeaveIn(py, q, instrs[1..], sites[1..]);
      var next := NextPrefix(py, instrs[0]);
      PrefixBound(py, instrs[0], prefix, p);
      WovenTail(py, q, instrs, sites);
      TailsAgree(instrs, sites);
      if sites[0].Some? {
        CheckReadsBack(py, q, sites[0].value, tail, next);
        if next > 0 {
          LostPrefix(py, instrs, sites, p, q);
        }
      }
      CanonicalNeedsLimits(py, instrs[1..], sites[1..], next, p, q);
    }
  }

  lemma PrefixBound(py: Python, i: Instr, prefix: int, p: Pools)
    requires py.Valid() && prefix >= 0 && CanonicalOne(py, i, prefix, p)
    ensures NextPrefix(py, i) == 0 || NextPrefix(py, i) >= 256
  {
  }

  lemma TailsAgree(instrs: seq<Instr>, sites: seq<Option<int>>)
    requires |sites| == |instrs| > 0
    ensures forall i :: 0 <= i < |instrs[1..]| ==> instrs[1..][i] == instrs[i + 1] && sites[1..][i] == sites[i + 1]
    ensures forall i :: 0 < i < |instrs| ==> instrs[i] == instrs[1..][i - 1] && sites[i] == sites[1..][i - 1]
  {
  }

  /** An instruction that needs its prefix does not read back without it. */
  lemma LostPrefix(py: Python, instrs: seq<Instr>, sites: seq<Option<int>>, p: Pools, q: Pools)
    requires py.Valid() && |sites| == |instrs| > 0 && NextPrefix(py, instrs[0]) >= 256
    requires PrefixesUsed(py, instrs) && Canonical(py, instrs[1..], NextPrefix(py, instrs[0]), p)
    ensures !Canonical(py, WeaveIn(py, q, instrs[1..], sites[1..]), 0, q)
  {
    var target := instrs[1];
    WovenTail(py, q, instrs[1..], sites[1..]);
    assert instrs[1..][0] == target && py.hasArg(target.op);
  }

  /** The exact condition for the bytes of an injection to mean what was woven: the listing
      had every CACHE entry, no check comes between an opcode and its own or cuts off a
      non-zero EXTENDED_ARG, checks bring their CACHE entries, and their indices fit a byte. */
  predicate Survives(py: Python, instrs: seq<Instr>, sites: seq<Option<int>>, q: Pools)
    requires |sites| == |instrs|
  {
    && Aligned(py, instrs, 0) && !SplitsCaches(py, instrs, sites, 0) && (HasSite(sites) ==> py.EmitsCaches())
    && KeepsPrefixes(py, instrs, sites) && AllFit(py, q, sites)
  }

  /** The interpreter reads the injected bytes as the woven list exactly in that case. */
  lemma InjectedDecodesIff(py: Python, code: seq<Byte>, pools: Pools, sites: seq<Option<int>>)
    requires py.Valid() && |sites| == |Listed(py, code, 0, 0, pools)|
    requires InRange(py, Listed(py, code, 0, 0, pools), pools) && PrefixesUsed(py, Listed(py, code, 0, 0, pools))
    ensures var (code', q) := Injected(py, code, pools, sites);
      var instrs := Listed(py, code, 0, 0, pools);
      Decode(py, code', 0, 0, q) == WeaveIn(py, q, instrs, sites) <==> Survives(py, instrs, sites, q)
  {
    hide Decode, Listed, Aligned, Canonical, SplitsCaches, HasSite, PrefixesUsed, KeepsPrefixes, AllFit, InRange, Resolve, WeaveIn, Encode;
    var instrs := Listed(py, code, 0, 0, pools);
    var (code', q) := Injected(py, code, pools, sites);
    ListedIsCanonical(py, code, 0, 0, pools);
    ResolveWeave(py, instrs, sites, pools);
    DecodeEncodeIff(py, WeaveIn(py, q, instrs, sites), 0, 0, q);
    WovenAligned(py, q, instrs, sites, 0);
    if Canonical(py, WeaveIn(py, q, instrs, sites), 0, q) {
      CanonicalNeedsLimits(py, instrs, sites, 0, pools, q);
    }
    if KeepsPrefixes(py, instrs, sites) && AllFit(py, q, sites) {
      WovenIsCanonical(py, instrs, sites, 0, pools, q);
    }
  }

  /** Sufficiency needs nothing about the use of prefixes. */
  lemma InjectedDecodes(py: Python, code: seq<Byte>, pools: Pools, sites: seq<Option<int>>)
    requires py.Valid() && |sites| == |Listed(py, code, 0, 0, pools)|
    requires InRange(py, Listed(py, code, 0, 0, pools), pools)
    requires Survives(py, Listed(py, code, 0, 0, pools), sites, Injected(py, code, pools, sites).1)
    ensures var (code', q) := Injected(py, code, pools, sites);
      && Decode(py, code', 0, 0, q) == WeaveIn(py, q, Listed(py, code, 0, 0, pools), sites)
      && Extends(pools, q)
  {
    hide Decode, Listed, Aligned, Canonical, SplitsCaches, HasSite, KeepsPrefixes, AllFit, InRange, Resolve, WeaveIn, Encode;
    var instrs := Listed(py, code, 0, 0, pools);
    var (code', q) := Injected(py, code, pools, sites);
    ListedIsCanonical(py, code, 0, 0, pools);
    ResolveWeave(py, instrs, sites, pools);
    WovenIsCanonical(py, instrs, sites, 0, pools, q);
    WovenAligned(py, q, instrs, sites, 0);
    DecodeEncodeIff(py, WeaveIn(py, q, instrs, sites), 0, 0, q);
  }

  // ----- which breakpoint lines cut off a prefix ------------------------------------

  /** Line `line` begins on a non-preferred instruction whose EXTENDED_ARG belongs to an
      earlier line. */
  predicate BeginsAfterPrefix(py: Python, instrs: seq<Instr>, marks: seq<LineMark>, line: int, i: nat) {
    0 < i < |instrs| && FirstOn(marks, line, i) && !Preferred(py, instrs[i].op)
    && NextPrefix(py, instrs[i - 1]) != 0
  }

  lemma {:induction false} SiteWhereAPointIs(points: seq<Point>, index: nat, k: nat)
    requires k < |points| && points[k].index == index
    ensures SiteAt(points, index).Some?
  {
    if points[0].index != index {
      SiteWhereAPointIs(points[1..], index, k - 1);
    }
  }

  /** Prefixes survive exactly when no breakpoint line begins right after one.  Compilers
      start a line on the EXTENDED_ARG itself, and then every check keeps clear of it. */
  lemma PrefixesKeptIff(py: Python, instrs: seq<Instr>, marks: seq<LineMark>, lines: set<int>)
    requires py.Valid() && |marks| == |instrs|
    ensures KeepsPrefixes(py, instrs, Sites(FindPoints(py, instrs, marks, lines, |instrs|), |instrs|)) <==>
      !exists line, i: nat :: line in lines && BeginsAfterPrefix(py, instrs, marks, line, i)
  {
    hide FindPoints, LineAt, SiteAt;
    var points := FindPoints(py, instrs, marks, lines, |instrs|);
    var sites := Sites(points, |instrs|);
    var at := PointsAreFirstInstructions(py, instrs, marks, lines, |instrs|);
    forall k | 0 <= k < |instrs| && sites[k].Some? && NextPrefix(py, instrs[k]) != 0
      ensures exists line, i: nat :: line in lines && BeginsAfterPrefix(py, instrs, marks, line, i)
    {
      var q := SiteAtFrom(points, k + 1);
      assert BeginsAfterPrefix(py, instrs, marks, points[q].line, at[q]);
    }
    forall line, i: nat | line in lines && BeginsAfterPrefix(py, instrs, marks, line, i)
      ensures sites[i - 1].Some? && NextPrefix(py, instrs[i - 1]) != 0
    {
      assert HasLine(points, line);
      var p: nat :| p < |points| && points[p].line == line;
      assert at[p] == i;
      SiteWhereAPointIs(points, i, p);
    }
  }
}
