/**
  `BytecodeModifier` on whole code objects: inject, validate, remove, with the passes of the
  other modules one after the other.
 */
module CodeRebuild {
  import opened Wrappers
  import opened Bytecode
  import opened Injector
  import opened InlineCaches
  import opened InjectionLimits
  import opened RoundTrips
  import opened Stripper
  import opened Wordcode

  /** The parts of a code object that a rebuild replaces, and its line table, which a rebuild
      keeps: the mark of every word offset, with nothing to say about later ones. */
  datatype CodeObject = CodeObject(code: seq<Byte>, pools: Pools, table: seq<LineMark>, stackSize: int)

  const STACK_GROWTH := 2
  const MAX_STACKSIZE_DELTA := 16
  const NO_MARK := LineMark(None, None)

  function Instructions(py: Python, c: CodeObject): seq<Instr> {
    Listed(py, c.code, 0, 0, c.pools)
  }

  function NoMarks(n: nat): seq<LineMark> {
    if n == 0 then [] else [NO_MARK] + NoMarks(n - 1)
  }

  /** The marks of the instructions listed: CACHE entries have none of their own. */
  function ListedMarks(py: Python, code: seq<Byte>, owed: nat, table: seq<LineMark>): seq<LineMark> {
    var rest := if table == [] then [] else table[1..];
    if |code| < 2 then (if py.listsCaches then NoMarks(owed) else [])
    else if owed > 0 then
      (if py.listsCaches then [NO_MARK] else []) + ListedMarks(py, code[2..], owed - 1, rest)
    else [if table == [] then NO_MARK else table[0]] + ListedMarks(py, code[2..], py.caches(code[0]), rest)
  }

  function Marks(py: Python, c: CodeObject): seq<LineMark> {
    ListedMarks(py, c.code, 0, c.table)
  }

  lemma {:induction false} NoMarksFit(py: Python, n: nat)
    ensures |NoMarks(n)| == n == |Slots(py, n)| && CachesUnmarked(py, Slots(py, n), NoMarks(n))
  {
    if n > 0 {
      NoMarksFit(py, n - 1);
      UnmarkedCons(py, CacheInstr(py), NO_MARK, Slots(py, n - 1), NoMarks(n - 1));
    }
  }

  lemma UnmarkedCons(py: Python, i: Instr, mark: LineMark, instrs: seq<Instr>, marks: seq<LineMark>)
    requires |marks| == |instrs|
    ensures |[mark] + marks| == |[i] + instrs|
    ensures CachesUnmarked(py, instrs, marks) && (i.op == py.cache ==> mark == NO_MARK) ==>
            CachesUnmarked(py, [i] + instrs, [mark] + marks)
  {
  }

  /** One mark for each instruction listed, and none for CACHE entries. */
  lemma {:induction false} MarksFit(
      py: Python, code: seq<Byte>, prefix: int, owed: nat, pools: Pools, table: seq<LineMark>)
    ensures |ListedMarks(py, code, owed, table)| == |Listed(py, code, prefix, owed, pools)|
    ensures Regular(py, code, owed) ==>
      CachesUnmarked(py, Listed(py, code, prefix, owed, pools), ListedMarks(py, code, owed, table))
    decreases |code|
  {
    hide CachesUnmarked;
    var rest := if table == [] then [] else table[1..];
    if |code| < 2 {
      NoMarksFit(py, owed);
      NoMarksFit(py, 0);
    } else {
      var i := if owed > 0 then CacheInstr(py) else DecodeOne(py, code[0], code[1], prefix, pools);
      var next := Owed(py, code[0], owed);
      var p := if owed > 0 then 0 else NextPrefix(py, i);
      MarksFit(py, code[2..], p, next, pools, rest);
      var l, m := Listed(py, code[2..], p, next, pools), ListedMarks(py, code[2..], next, rest);
      assert owed == 0 ==> i.op == code[0];
      UnmarkedCons(py, i, if owed > 0 || table == [] then NO_MARK else table[0], l, m);
      assert [] + l == l && [] + m == m;
    }
  }

  /** Where CACHE entries are listed, an instruction has the mark of its word in the table, and a
      CACHE entry none. */
  lemma {:induction false} MarksAreTheTable(py: Python, code: seq<Byte>, owed: nat, table: seq<LineMark>, i: nat)
    requires py.listsCaches && Regular(py, code, owed) && 2 * i < |code|
    ensures 2 * |ListedMarks(py, code, owed, table)| == |code|
    ensures ListedMarks(py, code, owed, table)[i] ==
            if code[2 * i] == py.cache || i >= |table| then LineMark(None, None) else table[i]
  {
    var rest := if table == [] then [] else table[1..];
    var next := if owed > 0 then owed - 1 else py.caches(code[0]);
    if i > 0 {
      MarksAreTheTable(py, code[2..], next, rest, i - 1);
    } else if code[2..] != [] {
      assert Regular(py, code[2..], next);
      MarksAreTheTable(py, code[2..], next, rest, 0);
    }
  }

  function PointsFor(py: Python, c: CodeObject, lines: set<int>): seq<Point> {
    MarksFit(py, c.code, 0, 0, c.pools, c.table);
    FindPoints(py, Instructions(py, c), Marks(py, c), lines, |Marks(py, c)|)
  }

  function SitesFor(py: Python, c: CodeObject, lines: set<int>): (sites: seq<Option<int>>)
    ensures |sites| == |Instructions(py, c)|
  {
    Sites(PointsFor(py, c, lines), |Instructions(py, c)|)
  }

  /** Which breakpoint lines a code object can take: an injection survives exactly when the
      listing shows every cache slot, no breakpoint line's first instruction is a preferred
      opcode with slots, none begins right after a non-zero EXTENDED_ARG, checks bring their
      CACHE entries, and all their indices fit a byte. */
  lemma EncodableIff(py: Python, c: CodeObject, lines: set<int>)
    requires py.Valid() && Injectable(py, c.code, c.pools, SitesFor(py, c, lines))
    ensures var instrs, marks, sites := Instructions(py, c), Marks(py, c), SitesFor(py, c, lines);
      Encodable(py, c.code, c.pools, sites) <==>
      && ListsEverything(py, instrs)
      && (HasSite(sites) ==> py.EmitsCaches())
      && !(exists line, i: nat :: line in lines && FirstOn(marks, line, i) && CachedLoad(py, instrs, i))
      && !(exists line, i: nat :: line in lines && BeginsAfterPrefix(py, instrs, marks, line, i))
      && AllFit(py, Injected(py, c.code, c.pools, sites).1, sites)
  {
    hide Listed, ListedMarks, FindPoints, LineAt, SiteAt, Resolve, Weave, Encode, Decode, SplitsCaches, Aligned;
    MarksFit(py, c.code, 0, 0, c.pools, c.table);
    ListThenEncodeIff(py, c.code, c.pools);
    PrefixesKeptIff(py, Instructions(py, c), Marks(py, c), lines);
    if Aligned(py, Instructions(py, c), 0) {
      SplitsExactlyAtCachedFirstLoads(py, Instructions(py, c), Marks(py, c), lines);
    }
  }

  // ----- the safety validator -------------------------------------------------------

  /** Even length, and a known opcode in every word. */
  predicate Plausible(opcodes: set<Byte>, code: seq<Byte>) {
    code == [] || (|code| >= 2 && code[0] in opcodes && Plausible(opcodes, code[2..]))
  }

  /** The candidate looks decodable and its stack grew by no more than the allowed delta. */
  predicate Accepts(opcodes: set<Byte>, original: CodeObject, candidate: CodeObject) {
    Plausible(opcodes, candidate.code) && 0 <= candidate.stackSize - original.stackSize <= MAX_STACKSIZE_DELTA
  }

  /** The validator in numbers. */
  lemma {:induction false} PlausibleIff(opcodes: set<Byte>, code: seq<Byte>)
    ensures Plausible(opcodes, code) <==>
      |code| % 2 == 0 && forall k :: 0 <= k < |code| && k % 2 == 0 ==> code[k] in opcodes
  {
    if |code| >= 2 {
      var rest := code[2..];
      PlausibleIff(opcodes, rest);
      assert forall k :: 0 <= k < |rest| ==> rest[k] == code[k + 2];
      assert forall k :: 2 <= k < |code| ==> code[k] == rest[k - 2];
    }
  }

  lemma AcceptsIff(opcodes: set<Byte>, original: CodeObject, candidate: CodeObject)
    ensures Accepts(opcodes, original, candidate) <==>
      && |candidate.code| % 2 == 0
      && (forall k :: 0 <= k < |candidate.code| && k % 2 == 0 ==> candidate.code[k] in opcodes)
      && original.stackSize <= candidate.stackSize <= original.stackSize + 16
  {
    PlausibleIff(opcodes, candidate.code);
  }

  predicate AllKnown(opcodes: set<Byte>, instrs: seq<Instr>) {
    forall i :: 0 <= i < |instrs| ==> instrs[i].op in opcodes
  }

  lemma KnownCons(opcodes: set<Byte>, i: Instr, rest: seq<Instr>)
    ensures AllKnown(opcodes, [i] + rest) <==> i.op in opcodes && AllKnown(opcodes, rest)
  {
    assert ([i] + rest)[0] == i && forall k :: 0 <= k < |rest| ==> ([i] + rest)[k + 1] == rest[k];
  }

  lemma {:induction false} PlausibleEncoding(opcodes: set<Byte>, instrs: seq<Instr>)
    ensures Plausible(opcodes, Encode(instrs)) <==> AllKnown(opcodes, instrs)
  {
    if instrs != [] {
      PlausibleEncoding(opcodes, instrs[1..]);
      var code := Encode(instrs);
      assert code[0] == instrs[0].op && code[2..] == Encode(instrs[1..]);
      assert instrs == [instrs[0]] + instrs[1..];
      KnownCons(opcodes, instrs[0], instrs[1..]);
    }
  }

  lemma {:induction false} PlausibleListing(
      py: Python, opcodes: set<Byte>, code: seq<Byte>, prefix: int, owed: nat, pools: Pools)
    requires Regular(py, code, owed) && py.cache in opcodes
    ensures Plausible(opcodes, code) <==> AllKnown(opcodes, Listed(py, code, prefix, owed, pools))
  {
    if code != [] {
      hide AllKnown;
      var i := if owed > 0 then CacheInstr(py) else DecodeOne(py, code[0], code[1], prefix, pools);
      var next := Owed(py, code[0], owed);
      var p := if owed > 0 then 0 else NextPrefix(py, i);
      PlausibleListing(py, opcodes, code[2..], p, next, pools);
      var rest := Listed(py, code[2..], p, next, pools);
      KnownCons(opcodes, i, rest);
      assert i.op == code[0] && [] + rest == rest;
    } else {
      assert AllKnown(opcodes, []);
    }
  }

  lemma {:induction false} WovenKnown(
      py: Python, opcodes: set<Byte>, pools: Pools, instrs: seq<Instr>, sites: seq<Option<int>>)
    requires |sites| == |instrs| && {py.loadGlobal, py.loadConst, py.call, py.popTop, py.cache} <= opcodes
    ensures AllKnown(opcodes, WeaveIn(py, pools, instrs, sites)) <==> AllKnown(opcodes, instrs)
  {
    if instrs != [] {
      var w := WeaveIn(py, pools, instrs, sites);
      var check := CheckAtIn(py, pools, sites[0]);
      var tail := WeaveIn(py, pools, instrs[1..], sites[1..]);
      WovenTail(py, pools, instrs, sites);
      WovenKnown(py, opcodes, pools, instrs[1..], sites[1..]);
      CheckKnown(py, opcodes, pools, sites[0]);
      hide CheckAtIn, WeaveIn, AllKnown;
      KnownConcat(opcodes, check, tail);
      KnownCons(opcodes, instrs[0], check + tail);
      KnownCons(opcodes, instrs[0], instrs[1..]);
      assert w == [instrs[0]] + (check + tail) && instrs == [instrs[0]] + instrs[1..];
    }
  }

  lemma CheckKnown(py: Python, opcodes: set<Byte>, pools: Pools, site: Option<int>)
    requires {py.loadGlobal, py.loadConst, py.call, py.popTop, py.cache} <= opcodes
    ensures AllKnown(opcodes, CheckAtIn(py, pools, site))
  {
    assert py.loadGlobal in opcodes && py.loadConst in opcodes && py.call in opcodes
        && py.popTop in opcodes && py.cache in opcodes;
  }

  lemma KnownConcat(opcodes: set<Byte>, a: seq<Instr>, b: seq<Instr>)
    ensures AllKnown(opcodes, a + b) <==> AllKnown(opcodes, a) && AllKnown(opcodes, b)
  {
    if AllKnown(opcodes, a + b) {
      assert forall i :: 0 <= i < |a| ==> (a + b)[i] == a[i];
      assert forall i :: 0 <= i < |b| ==> (a + b)[|a| + i] == b[i];
    }
  }

  /** The code object that an accepted injection builds. */
  function WithBreakpoints(py: Python, c: CodeObject, lines: set<int>): CodeObject {
    var (code, pools) := Injected(py, c.code, c.pools, SitesFor(py, c, lines));
    c.(code := code, pools := pools, stackSize := c.stackSize + STACK_GROWTH)
  }

  /** The validator accepts an injection exactly when the original code is plausible itself:
      checks only add known opcodes, and the declared stack grows within the allowed delta. */
  lemma InjectionIsAccepted(py: Python, opcodes: set<Byte>, c: CodeObject, lines: set<int>)
    requires py.Valid() && Regular(py, c.code, 0)
    requires {py.loadGlobal, py.loadConst, py.call, py.popTop, py.cache} <= opcodes
    ensures Accepts(opcodes, c, WithBreakpoints(py, c, lines)) <==> Plausible(opcodes, c.code)
  {
    hide Listed, Encode, Weave, WeaveIn, Resolve, Plausible, SitesFor, AllKnown;
    var instrs, sites := Instructions(py, c), SitesFor(py, c, lines);
    ListedIsCanonical(py, c.code, 0, 0, c.pools);
    ResolveWeave(py, instrs, sites, c.pools);
    var (r, q) := Resolve(py, Weave(py, instrs, sites), c.pools);
    PlausibleEncoding(opcodes, r);
    WovenKnown(py, opcodes, q, instrs, sites);
    assert py.cache in opcodes;
    PlausibleListing(py, opcodes, c.code, 0, 0, c.pools);
  }

  // ----- whole code objects ---------------------------------------------------------

  /** No breakpoints, or none on a line of this code object: the code object itself.  A
      rejected candidate: failure and the code object itself. */
  method InjectBreakpoints(py: Python, opcodes: set<Byte>, c: CodeObject, lines: set<int>)
    returns (ok: bool, r: CodeObject)
    ensures PointsFor(py, c, lines) == [] ==> ok && r == c
    ensures PointsFor(py, c, lines) != [] ==>
      && (ok <==> Accepts(opcodes, c, WithBreakpoints(py, c, lines)))
      && r == (if ok then WithBreakpoints(py, c, lines) else c)
      && r.table == c.table && r.stackSize == c.stackSize + (if ok then 2 else 0)
  {
    var instrs, marks := Listed(py, c.code, 0, 0, c.pools), Marks(py, c);
    MarksFit(py, c.code, 0, 0, c.pools, c.table);
    var points := FindInjectionPoints(py, instrs, marks, lines);
    if points == [] {
      return true, c;
    }
    var woven := CreateBreakpointInstructions(py, instrs, points);
    var resolved, pools := ResolveInstructionArguments(py, c.pools, woven);
    var code := EncodeInstructions(resolved);
    var candidate := c.(code := code, pools := pools.View(), stackSize := c.stackSize + STACK_GROWTH);
    if !Accepts(opcodes, c, candidate) {
      return false, c;
    }
    return true, candidate;
  }

  /** The candidate that a removal builds. */
  function WithoutBreakpoints(py: Python, c: CodeObject): CodeObject {
    var (resolved, pools) := Resolve(py, Strip(py, Instructions(py, c)), c.pools);
    c.(code := Encode(resolved), pools := pools, stackSize := c.stackSize + STACK_GROWTH)
  }

  method RemoveBreakpointsFrom(py: Python, opcodes: set<Byte>, c: CodeObject) returns (r: CodeObject)
    ensures r == if Accepts(opcodes, c, WithoutBreakpoints(py, c)) then WithoutBreakpoints(py, c) else c
    ensures r.table == c.table && (r == c || r.stackSize == c.stackSize + 2)
  {
    var cleaned := RemoveBreakpoints(py, Listed(py, c.code, 0, 0, c.pools));
    var resolved, pools := ResolveInstructionArguments(py, c.pools, cleaned);
    var code := EncodeInstructions(resolved);
    var candidate := c.(code := code, pools := pools.View(), stackSize := c.stackSize + STACK_GROWTH);
    if !Accepts(opcodes, c, candidate) {
      return c;
    }
    return candidate;
  }

  /** Injecting and removing, on code objects: the bytes and the line table come back; the
      pools keep what was appended, and the declared stack has grown twice. */
  method InjectThenRemove(py: Python, opcodes: set<Byte>, c: CodeObject, lines: set<int>) returns (r: CodeObject)
    requires py.Valid() && PointsFor(py, c, lines) != [] && Plausible(opcodes, c.code)
    requires {py.loadGlobal, py.loadConst, py.call, py.popTop, py.cache} <= opcodes
    requires var sites := SitesFor(py, c, lines);
      Injectable(py, c.code, c.pools, sites) && Encodable(py, c.code, c.pools, sites)
    requires HasNoSequence(py, Instructions(py, c))
    ensures r.code == c.code && r.table == c.table && Extends(c.pools, r.pools)
    ensures r.stackSize == c.stackSize + 4
  {
    hide PointsFor, SitesFor, Listed, HasNoSequence, Encode, Resolve, Strip, Weave, Encodable, Plausible;
    var sites := SitesFor(py, c, lines);
    InjectionIsAccepted(py, opcodes, c, lines);
    EncodableDecodes(py, c.code, c.pools, sites);
    StripInvertsInject(py, c.code, c.pools, sites);
    var ok, injected := InjectBreakpoints(py, opcodes, c, lines);
    r := RemoveBreakpointsFrom(py, opcodes, injected);
  }
}
