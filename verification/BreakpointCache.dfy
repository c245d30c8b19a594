/**
  `BreakpointCache`: breakpoint lines per file under an LRU bound.  The specification is one
  list of entries, least recently used first; the object keeps three maps.
 */
module BreakpointCache {
  import opened Wrappers
  import opened Recency

  datatype Entry = Entry(file: string, lines: set<int>, mtime: int)

  /** What `stat` says about a file at the moment of a call. */
  datatype FileStat = Missing | Present(mtime: int)

  datatype Lru = Lru(entries: seq<Entry>, maxEntries: int, enabled: bool)

  // ----- lists of entries -----------------------------------------------------------

  function Files(s: seq<Entry>): (r: seq<string>)
    ensures |r| == |s|
  {
    if s == [] then [] else [s[0].file] + Files(s[1..])
  }

  function Find(s: seq<Entry>, file: string): (r: Option<Entry>)
    ensures r.Some? ==> r.value.file == file
  {
    if s == [] then None else if s[0].file == file then Some(s[0]) else Find(s[1..], file)
  }

  function Drop(s: seq<Entry>, file: string): seq<Entry> {
    if s == [] then [] else if s[0].file == file then s[1..] else [s[0]] + Drop(s[1..], file)
  }

  /** Oldest entries go until at most `max` are left. */
  function Trim(s: seq<Entry>, max: int): seq<Entry> {
    if |s| > max && s != [] then Trim(s[1..], max) else s
  }

  // ----- operations on the list -----------------------------------------------------

  predicate Contains(s: string, t: string) {
    t <= s || (s != [] && Contains(s[1..], t))
  }

  predicate OccursAt(t: string, s: string, i: nat) {
    i + |t| <= |s| && s[i..i + |t|] == t
  }

  lemma {:induction false} ContainsIff(s: string, t: string)
    ensures Contains(s, t) <==> exists i: nat :: OccursAt(t, s, i)
  {
    if t <= s {
      assert OccursAt(t, s, 0);
    } else if s != [] {
      ContainsIff(s[1..], t);
      if i: nat :| OccursAt(t, s[1..], i) {
        assert s[1..][i..i + |t|] == s[i + 1..i + 1 + |t|];
        assert OccursAt(t, s, i + 1);
      }
      if i: nat :| OccursAt(t, s, i) {
        assert i > 0;
        assert s[1..][i - 1..i - 1 + |t|] == s[i..i + |t|];
        assert OccursAt(t, s[1..], i - 1);
      }
    }
  }

  /** Test files and files that do not exist are served whatever their age. */
  predicate Exempt(file: string, stat: FileStat) {
    stat.Missing? || Contains(file, "test_") || Contains(file, "test/") || Contains(file, "test\\")
  }

  predicate Usable(e: Entry, stat: FileStat) {
    Exempt(e.file, stat) || (stat.Present? && e.mtime >= stat.mtime)
  }

  function DoGet(t: Lru, file: string, stat: FileStat): (Lru, Option<set<int>>) {
    match Find(t.entries, file)
    case None => (t, None)
    case Some(e) =>
      if Usable(e, stat) then (t.(entries := Drop(t.entries, file) + [e]), Some(e.lines))
      else (t.(entries := Drop(t.entries, file)), None)
  }

  function Added(t: Lru, file: string, lines: set<int>, stat: FileStat, now: int): seq<Entry> {
    Drop(t.entries, file) + [Entry(file, lines, if stat.Present? then stat.mtime else now)]
  }

  function DoSet(t: Lru, file: string, lines: set<int>, stat: FileStat, now: int): Lru {
    if !t.enabled then t
    else if lines == {} then t.(entries := Drop(t.entries, file))
    else t.(entries := Trim(Added(t, file, lines, stat, now), t.maxEntries))
  }

  datatype Op =
    | Get(file: string, stat: FileStat)
    | Set(file: string, lines: set<int>, stat: FileStat, now: int)
    | Invalidate(file: string)
    | ClearAll
    | Enable(on: bool)

  function Step(t: Lru, op: Op): Lru {
    match op
    case Get(file, stat) => DoGet(t, file, stat).0
    case Set(file, lines, stat, now) => DoSet(t, file, lines, stat, now)
    case Invalidate(file) => t.(entries := Drop(t.entries, file))
    case ClearAll => t.(entries := [])
    case Enable(on) => if on then t.(enabled := true) else t.(entries := [], enabled := false)
  }

  function Run(maxEntries: int, ops: seq<Op>): Lru {
    if ops == [] then Lru([], maxEntries, true)
    else Step(Run(maxEntries, ops[..|ops| - 1]), ops[|ops| - 1])
  }

  // ----- facts about lists ----------------------------------------------------------

  lemma {:induction false} DropIsWithout(s: seq<Entry>, file: string)
    ensures Files(Drop(s, file)) == Without(Files(s), file)
  {
    if s != [] && s[0].file != file {
      DropIsWithout(s[1..], file);
    }
  }

  lemma {:induction false} FilesAppend(s: seq<Entry>, e: Entry)
    ensures Files(s + [e]) == Files(s) + [e.file]
  {
    if s == [] {
      assert s + [e] == [e] && Files([e]) == [e.file] + Files([]);
    } else {
      FilesAppend(s[1..], e);
      assert (s + [e])[1..] == s[1..] + [e];
    }
  }

  lemma {:induction false} FindIffListed(s: seq<Entry>, file: string)
    ensures Find(s, file).Some? <==> file in Files(s)
  {
    if s != [] {
      FindIffListed(s[1..], file);
    }
  }

  lemma {:induction false} FindAfterDrop(s: seq<Entry>, file: string, other: string)
    requires Distinct(Files(s))
    ensures Find(Drop(s, file), other) == if other == file then None else Find(s, other)
  {
    if s != [] {
      FindAfterDrop(s[1..], file, other);
      FindIffListed(s[1..], other);
      var t := Drop(s[1..], file);
      assert ([s[0]] + t)[1..] == t;
    }
  }

  lemma {:induction false} FindAfterAppend(s: seq<Entry>, e: Entry, other: string)
    ensures Find(s + [e], other) ==
      if Find(s, other).Some? then Find(s, other) else if e.file == other then Some(e) else None
  {
    if s == [] {
      assert Find([e][1..], other) == None;
    } else {
      FindAfterAppend(s[1..], e, other);
      assert (s + [e])[1..] == s[1..] + [e];
    }
  }

  /** `Trim` keeps a suffix: what it keeps is unchanged, and what it drops was older. */
  lemma {:induction false} TrimFacts(s: seq<Entry>, max: int, file: string)
    requires Distinct(Files(s))
    ensures var t := Trim(s, max);
      && Distinct(Files(t)) && |t| <= (if max < 0 then 0 else max)
      && (Find(t, file).Some? ==> Find(t, file) == Find(s, file))
      && (|s| <= max ==> t == s)
      && (Find(s, file).Some? && Find(t, file).None? ==>
            |s| > max && forall x :: x in Files(t) ==> Before(Files(s), file, x))
      && (forall x, y :: Before(Files(t), x, y) ==> Before(Files(s), x, y))
      && (forall x :: x in Files(t) ==> x in Files(s))
  {
    if |s| > max && s != [] {
      assert Files(s)[1..] == Files(s[1..]);
      TrimFacts(s[1..], max, file);
      FindIffListed(s[1..], file);
    }
  }

  // ----- invariants of every run ----------------------------------------------------

  /** The lines of the latest `set_breakpoints` call for `file`, unless the entry was
      invalidated, cleared or caching switched off since.  Calls made while caching is off
      count as calls. */
  function LastCall(ops: seq<Op>, file: string): Option<set<int>> {
    if ops == [] then None
    else
      var before := ops[..|ops| - 1];
      match ops[|ops| - 1]
      case Set(f, lines, _, _) => if f == file then Some(lines) else LastCall(before, file)
      case Invalidate(f) => if f == file then None else LastCall(before, file)
      case ClearAll => None
      case Enable(on) => if on then LastCall(before, file) else None
      case Get(_, _) => LastCall(before, file)
  }

  /** The operation sets or successfully reads `file`. */
  predicate Touches(t: Lru, op: Op, file: string) {
    match op
    case Get(f, stat) => f == file && DoGet(t, f, stat).1.Some?
    case Set(f, lines, _, _) => f == file && t.enabled && lines != {}
    case _ => false
  }

  /** One more than the position of the last operation that set or read `file`; 0 if none. */
  function LastTouch(maxEntries: int, ops: seq<Op>, file: string): (n: nat)
    ensures n <= |ops|
  {
    if ops == [] then 0
    else if Touches(Run(maxEntries, ops[..|ops| - 1]), ops[|ops| - 1], file) then |ops|
    else LastTouch(maxEntries, ops[..|ops| - 1], file)
  }

  ghost predicate Shaped(t: Lru) {
    && Distinct(Files(t.entries))
    && |t.entries| <= (if t.maxEntries < 0 then 0 else t.maxEntries)
    && (!t.enabled ==> t.entries == [])
  }

  /** The order changes only in favour of the touched file. */
  ghost predicate OrderKept(t: Lru, u: Lru, op: Op) {
    forall x, y :: Before(Files(u.entries), x, y) ==>
      !Touches(t, op, x) && (Before(Files(t.entries), x, y) || Touches(t, op, y))
  }

  lemma AddedFacts(t: Lru, file: string, e: Entry)
    requires Distinct(Files(t.entries)) && e.file == file
    ensures var s := Drop(t.entries, file) + [e];
      && Files(s) == MoveToEnd(Files(t.entries), file) && Distinct(Files(s))
      && (forall x, y :: Before(Files(s), x, y) ==>
            x != file && (Before(Files(t.entries), x, y) || y == file))
      && (forall other :: Find(s, other) == if other == file then Some(e) else Find(t.entries, other))
      && |s| == |Files(t.entries)| + (if file in Files(t.entries) then 0 else 1)
  {
    DropIsWithout(t.entries, file);
    FilesAppend(Drop(t.entries, file), e);
    MoveToEndFacts(Files(t.entries), file);
    forall other
      ensures Find(Drop(t.entries, file) + [e], other) == if other == file then Some(e) else Find(t.entries, other)
    {
      FindAfterDrop(t.entries, file, other);
      FindAfterAppend(Drop(t.entries, file), e, other);
    }
  }

  lemma DropFacts(t: Lru, file: string)
    requires Distinct(Files(t.entries))
    ensures var s := Drop(t.entries, file);
      && Distinct(Files(s)) && |s| <= |t.entries|
      && (forall x, y :: Before(Files(s), x, y) ==> Before(Files(t.entries), x, y))
      && (forall other :: Find(s, other) == if other == file then None else Find(t.entries, other))
  {
    DropIsWithout(t.entries, file);
    WithoutFacts(Files(t.entries), file);
    forall other ensures Find(Drop(t.entries, file), other) == if other == file then None else Find(t.entries, other) {
      FindAfterDrop(t.entries, file, other);
    }
  }

  lemma SetShape(t: Lru, op: Op)
    requires Shaped(t) && op.Set?
    ensures Shaped(Step(t, op)) && OrderKept(t, Step(t, op), op) && Step(t, op).maxEntries == t.maxEntries
  {
    hide Usable, Drop, Find, Trim;
    DropFacts(t, op.file);
    var s := Added(t, op.file, op.lines, op.stat, op.now);
    AddedFacts(t, op.file, s[|s| - 1]);
    TrimFacts(s, t.maxEntries, op.file);
  }

  lemma StepShape(t: Lru, op: Op)
    requires Shaped(t)
    ensures Shaped(Step(t, op)) && OrderKept(t, Step(t, op), op) && Step(t, op).maxEntries == t.maxEntries
  {
    hide Usable, Drop, Find, Trim;
    match op
    case Get(file, stat) =>
      FindIffListed(t.entries, file);
      DropFacts(t, file);
      if Find(t.entries, file).Some? {
        AddedFacts(t, file, Find(t.entries, file).value);
      }
    case Set(_, _, _, _) => SetShape(t, op);
    case Invalidate(file) =>
      DropFacts(t, file);
    case _ =>
  }

  lemma {:induction false} RunShape(maxEntries: int, ops: seq<Op>)
    ensures var t := Run(maxEntries, ops);
      && Shaped(t) && t.maxEntries == maxEntries
      && (forall x, y :: Before(Files(t.entries), x, y) ==>
            LastTouch(maxEntries, ops, x) < LastTouch(maxEntries, ops, y))
  {
    if ops != [] {
      hide Shaped, Step, Touches;
      var before, op := ops[..|ops| - 1], ops[|ops| - 1];
      RunShape(maxEntries, before);
      StepShape(Run(maxEntries, before), op);
    } else {
      assert Shaped(Run(maxEntries, ops));
    }
  }

  lemma StepEntry(t: Lru, op: Op, file: string)
    requires Shaped(t) && Find(Step(t, op).entries, file).Some?
    ensures var e := Find(Step(t, op).entries, file).value;
      if op.Set? && op.file == file then e.lines == op.lines && op.lines != {}
      else Find(t.entries, file) == Some(e) && !(op.Invalidate? && op.file == file)
           && !op.ClearAll? && !(op.Enable? && !op.on)
  {
    match op
    case Get(f, stat) =>
      DropFacts(t, f);
      if Find(t.entries, f).Some? {
        AddedFacts(t, f, Find(t.entries, f).value);
      }
    case Set(f, lines, stat, now) =>
      DropFacts(t, f);
      var s := Added(t, f, lines, stat, now);
      AddedFacts(t, f, s[|s| - 1]);
      TrimFacts(s, t.maxEntries, file);
    case Invalidate(f) =>
      DropFacts(t, f);
    case _ =>
  }

  // ----- the theorems ---------------------------------------------------------------

  lemma {:induction false} EntriesAreLastCalls(maxEntries: int, ops: seq<Op>, file: string)
    requires Find(Run(maxEntries, ops).entries, file).Some?
    ensures LastCall(ops, file) == Some(Find(Run(maxEntries, ops).entries, file).value.lines)
    ensures Find(Run(maxEntries, ops).entries, file).value.lines != {}
  {
    if ops != [] {
      hide Step;
      var before, op := ops[..|ops| - 1], ops[|ops| - 1];
      RunShape(maxEntries, before);
      StepEntry(Run(maxEntries, before), op, file);
      if !(op.Set? && op.file == file) {
        EntriesAreLastCalls(maxEntries, before, file);
      }
    }
  }

  /** `get_breakpoints` returns the lines of the latest call for the file or nothing, never
      anything older, also when caching was switched off and on in between. */
  lemma GetReturnsLastCall(maxEntries: int, ops: seq<Op>, file: string, stat: FileStat)
    ensures var (_, r) := DoGet(Run(maxEntries, ops), file, stat);
      r.Some? ==> r == LastCall(ops, file) && r.value != {}
  {
    if Find(Run(maxEntries, ops).entries, file).Some? {
      EntriesAreLastCalls(maxEntries, ops, file);
    }
  }

  /** The bound holds in every reachable state, and one entry per file. */
  lemma SizeBounded(maxEntries: int, ops: seq<Op>)
    ensures var t := Run(maxEntries, ops);
      |t.entries| <= (if maxEntries < 0 then 0 else maxEntries) && Distinct(Files(t.entries))
  {
    RunShape(maxEntries, ops);
  }

  /** A set only evicts other files when the cache is full, and then the file set or read
      longest ago: every file that stays was touched later. */
  lemma EvictsLeastRecent(maxEntries: int, ops: seq<Op>, op: Op, evicted: string)
    requires op.Set? && evicted != op.file
    requires Find(Run(maxEntries, ops).entries, evicted).Some?
    requires Find(Step(Run(maxEntries, ops), op).entries, evicted).None?
    ensures |Added(Run(maxEntries, ops), op.file, op.lines, op.stat, op.now)| > maxEntries
    ensures forall kept :: kept != op.file && Find(Step(Run(maxEntries, ops), op).entries, kept).Some? ==>
      LastTouch(maxEntries, ops, evicted) < LastTouch(maxEntries, ops, kept)
  {
    RunShape(maxEntries, ops);
    var t := Run(maxEntries, ops);
    var s := Added(t, op.file, op.lines, op.stat, op.now);
    DropFacts(t, op.file);
    AddedFacts(t, op.file, s[|s| - 1]);
    TrimFacts(s, maxEntries, evicted);
    forall kept | kept != op.file && Find(Step(t, op).entries, kept).Some?
      ensures LastTouch(maxEntries, ops, evicted) < LastTouch(maxEntries, ops, kept)
    {
      FindIffListed(Step(t, op).entries, kept);
      assert Before(Files(s), evicted, kept);
    }
  }

  /** The name of a test file, by one of three patterns in it. */
  ghost predicate OfTest(file: string) {
    exists i: nat :: OccursAt("test_", file, i) || OccursAt("test/", file, i) || OccursAt("test\\", file, i)
  }

  /** A stored entry is served exactly when the file does not exist, is a test file by its name,
      or was not modified after the entry's time; otherwise the read drops it. */
  lemma ServedIffUnchanged(t: Lru, file: string, stat: FileStat)
    requires Shaped(t)
    ensures var (after, r) := DoGet(t, file, stat);
      var found := Find(t.entries, file);
      && (r.Some? <==> found.Some? && (stat == Missing || OfTest(file) || found.value.mtime >= stat.mtime))
      && (r.Some? ==> r == Some(found.value.lines))
      && (r.None? ==> forall f :: Find(after.entries, f) == if f == file then None else Find(t.entries, f))
      && after.enabled == t.enabled && after.maxEntries == t.maxEntries
  {
    DropFacts(t, file);
    ContainsIff(file, "test_");
    ContainsIff(file, "test/");
    ContainsIff(file, "test\\");
    hide Contains, OccursAt;
  }

  /** What a set stores in every reachable state with caching on and room for one entry: the
      lines, with the modification time of the file, or the clock when it has none. */
  lemma SetStores(maxEntries: int, ops: seq<Op>, file: string, lines: set<int>, stat: FileStat, now: int)
    requires Run(maxEntries, ops).enabled
    ensures var after := Run(maxEntries, ops + [Set(file, lines, stat, now)]);
      Find(after.entries, file) ==
      if lines == {} || maxEntries <= 0 then None
      else match stat
        case Missing => Some(Entry(file, lines, now))
        case Present(mtime) => Some(Entry(file, lines, mtime))
  {
    var op := Set(file, lines, stat, now);
    var all := ops + [op];
    assert all[..|all| - 1] == ops && all[|all| - 1] == op;
    RunShape(maxEntries, ops);
    RunShape(maxEntries, all);
    DropFacts(Run(maxEntries, ops), file);
    if lines != {} {
      if maxEntries > 0 {
        StoredStays(Run(maxEntries, ops), op);
      } else {
        assert Run(maxEntries, all).entries == [];
      }
    }
  }

  /** So after a set, until the file is set, invalidated or cleared again, a read serves it
      only while the file has not been modified since that set, unless it is exempt. */
  lemma ChangedFileIsNotServed(maxEntries: int, ops: seq<Op>, file: string, mtime: int)
    requires !OfTest(file)
    ensures var (_, r) := DoGet(Run(maxEntries, ops), file, Present(mtime));
      r.Some? ==> LastStored(maxEntries, ops, file).Some? && LastStored(maxEntries, ops, file).value.mtime >= mtime
  {
    RunShape(maxEntries, ops);
    ServedIffUnchanged(Run(maxEntries, ops), file, Present(mtime));
    if Find(Run(maxEntries, ops).entries, file).Some? {
      EntriesAreLastStored(maxEntries, ops, file);
    }
  }

  // ----- survival -------------------------------------------------------------------

  /** The entry last stored for `file`, unless it was dropped since: by a set of no lines, by a
      read that found the file changed, by an invalidation, or by clearing. */
  function LastStored(maxEntries: int, ops: seq<Op>, file: string): Option<Entry> {
    if ops == [] then None
    else
      var before := ops[..|ops| - 1];
      var kept := LastStored(maxEntries, before, file);
      match ops[|ops| - 1]
      case Set(f, lines, stat, now) =>
        if f != file || !Run(maxEntries, before).enabled then kept
        else if lines == {} then None
        else Some(Entry(file, lines, if stat.Present? then stat.mtime else now))
      case Get(f, stat) => if f == file && kept.Some? && !Usable(kept.value, stat) then None else kept
      case Invalidate(f) => if f == file then None else kept
      case ClearAll => None
      case Enable(on) => if on then kept else None
  }

  /** The other files set or successfully read since `file` was. */
  function OthersSince(maxEntries: int, ops: seq<Op>, file: string): set<string> {
    if ops == [] then {}
    else
      var before, op := ops[..|ops| - 1], ops[|ops| - 1];
      if Touches(Run(maxEntries, before), op, file) then {}
      else OthersSince(maxEntries, before, file) + TouchedBy(Run(maxEntries, before), op)
  }

  function TouchedBy(t: Lru, op: Op): set<string> {
    if op.Get? && Touches(t, op, op.file) then {op.file}
    else if op.Set? && Touches(t, op, op.file) then {op.file}
    else {}
  }

  /** A file touched later than another is among the others since. */
  lemma {:induction false} LaterIsOther(maxEntries: int, ops: seq<Op>, x: string, y: string)
    requires LastTouch(maxEntries, ops, x) < LastTouch(maxEntries, ops, y)
    ensures y in OthersSince(maxEntries, ops, x)
  {
    hide Run;
    var before, op := ops[..|ops| - 1], ops[|ops| - 1];
    if !Touches(Run(maxEntries, before), op, y) {
      LaterIsOther(maxEntries, before, x, y);
    }
  }

  /** What a trim takes away had as many files behind it as may stay. */
  lemma {:induction false} TrimmedHadBehind(s: seq<Entry>, max: int, file: string) returns (behind: seq<string>)
    requires Distinct(Files(s)) && Find(s, file).Some? && Find(Trim(s, max), file).None?
    ensures Distinct(behind) && |behind| >= max
    ensures forall y :: y in behind ==> Before(Files(s), file, y)
  {
    assert Files(s)[1..] == Files(s[1..]);
    if s[0].file == file {
      behind := Files(s[1..]);
    } else {
      behind := TrimmedHadBehind(s[1..], max, file);
    }
  }

  lemma {:induction false} Retained(maxEntries: int, ops: seq<Op>, file: string)
    requires LastStored(maxEntries, ops, file).Some?
    requires |OthersSince(maxEntries, ops, file)| < maxEntries
    ensures Find(Run(maxEntries, ops).entries, file) == LastStored(maxEntries, ops, file)
  {
    var before, op := ops[..|ops| - 1], ops[|ops| - 1];
    var t := Run(maxEntries, before);
    RunShape(maxEntries, before);
    if op.Set? && op.file == file && t.enabled {
      StoredStays(t, op);
    } else if Touches(t, op, file) {
      ReadStays(t, op, file);
      EntriesAreLastStored(maxEntries, ops, file);
    } else {
      hide Drop, Find, Trim, Contains;
      OthersGrow(maxEntries, before, op, file);
      assert before + [op] == ops;
      Retained(maxEntries, before, file);
      if op.Set? && t.enabled && op.lines != {} {
        SetKeeps(maxEntries, before, op, file);
      } else {
        OtherKeeps(t, op, file);
      }
    }
  }

  lemma ReadStays(t: Lru, op: Op, file: string)
    requires Shaped(t) && op.Get? && Touches(t, op, file)
    ensures Find(Step(t, op).entries, file).Some?
  {
    AddedFacts(t, file, Find(t.entries, file).value);
  }

  lemma StoredStays(t: Lru, op: Op)
    requires Shaped(t) && op.Set? && t.enabled && op.lines != {} && t.maxEntries > 0
    ensures Find(Step(t, op).entries, op.file) ==
            Some(Entry(op.file, op.lines, if op.stat.Present? then op.stat.mtime else op.now))
  {
    hide Drop, Find, Trim;
    var s := Added(t, op.file, op.lines, op.stat, op.now);
    AddedFacts(t, op.file, s[|s| - 1]);
    TrimFacts(s, t.maxEntries, op.file);
    TrimKeepsLast(s, t.maxEntries);
  }

  lemma {:induction false} TrimKeepsLast(s: seq<Entry>, max: int)
    requires s != [] && max > 0
    ensures Find(Trim(s, max), s[|s| - 1].file).Some?
  {
    if |s| > max {
      TrimKeepsLast(s[1..], max);
    } else {
      LastIsFound(s);
    }
  }

  lemma {:induction false} LastIsFound(s: seq<Entry>)
    requires s != []
    ensures Find(s, s[|s| - 1].file).Some?
  {
    if |s| > 1 {
      LastIsFound(s[1..]);
    }
  }

  lemma OthersGrow(maxEntries: int, before: seq<Op>, op: Op, file: string)
    requires !Touches(Run(maxEntries, before), op, file)
    ensures |OthersSince(maxEntries, before, file)| <= |OthersSince(maxEntries, before + [op], file)|
    ensures OthersSince(maxEntries, before + [op], file) ==
            OthersSince(maxEntries, before, file) + TouchedBy(Run(maxEntries, before), op)
  {
    hide Run, Touches, TouchedBy;
    assert (before + [op])[..|before|] == before && (before + [op])[|before|] == op;
    SubsetSize(OthersSince(maxEntries, before, file), OthersSince(maxEntries, before + [op], file));
  }

  /** Setting another file may push this one out only past as many others as may stay. */
  lemma SetKeeps(maxEntries: int, before: seq<Op>, op: Op, file: string)
    requires op.Set? && op.file != file && op.lines != {} && Run(maxEntries, before).enabled
    requires |OthersSince(maxEntries, before + [op], file)| < maxEntries
    requires Find(Run(maxEntries, before).entries, file).Some?
    ensures Find(Step(Run(maxEntries, before), op).entries, file) == Find(Run(maxEntries, before).entries, file)
  {
    hide Run, Drop, Find, Trim, OthersSince;
    var t := Run(maxEntries, before);
    RunShape(maxEntries, before);
    var s := Added(t, op.file, op.lines, op.stat, op.now);
    AddedFacts(t, op.file, s[|s| - 1]);
    TrimFacts(s, maxEntries, file);
    OthersGrow(maxEntries, before, op, file);
    if Find(Trim(s, maxEntries), file).None? {
      var behind := TrimmedHadBehind(s, maxEntries, file);
      forall y | y in behind ensures y in OthersSince(maxEntries, before + [op], file) {
        assert Before(Files(s), file, y);
        if y != op.file {
          LaterIsOther(maxEntries, before, file, y);
        }
      }
      DistinctSize(behind, OthersSince(maxEntries, before + [op], file));
    }
  }

  /** Nothing else takes away an entry but what `LastStored` says does. */
  lemma OtherKeeps(t: Lru, op: Op, file: string)
    requires Shaped(t) && Find(t.entries, file).Some?
    requires !(op.Set? && t.enabled && (op.file == file || op.lines != {})) && !(op.Get? && op.file == file)
    requires !(op.Invalidate? && op.file == file) && !op.ClearAll? && !(op.Enable? && !op.on)
    ensures Find(Step(t, op).entries, file) == Find(t.entries, file)
  {
    hide Drop, Find;
    if op.Get? || op.Set? || op.Invalidate? {
      DropFacts(t, op.file);
      if op.Get? && Find(t.entries, op.file).Some? {
        AddedFacts(t, op.file, Find(t.entries, op.file).value);
      }
    }
  }

  /** What is stored is what was last stored. */
  lemma {:induction false} EntriesAreLastStored(maxEntries: int, ops: seq<Op>, file: string)
    requires Find(Run(maxEntries, ops).entries, file).Some?
    ensures LastStored(maxEntries, ops, file) == Find(Run(maxEntries, ops).entries, file)
  {
    if ops != [] {
      var before, op := ops[..|ops| - 1], ops[|ops| - 1];
      var t := Run(maxEntries, before);
      RunShape(maxEntries, before);
      StepEntry(t, op, file);
      if op.Set? && op.file == file {
        var s := Added(t, file, op.lines, op.stat, op.now);
        AddedFacts(t, file, s[|s| - 1]);
        TrimFacts(s, t.maxEntries, file);
      } else {
        EntriesAreLastStored(maxEntries, before, file);
        DropFacts(t, file);
      }
    }
  }

  /** A read of a file that has not changed gives the lines last stored for it, unless at least
      `maxEntries` other files were set or read since it was. */
  lemma GetSurvives(maxEntries: int, ops: seq<Op>, file: string, stat: FileStat)
    requires LastStored(maxEntries, ops, file).Some? && Usable(LastStored(maxEntries, ops, file).value, stat)
    requires |OthersSince(maxEntries, ops, file)| < maxEntries
    ensures DoGet(Run(maxEntries, ops), file, stat).1 == Some(LastStored(maxEntries, ops, file).value.lines)
  {
    hide Run, LastStored, OthersSince;
    Retained(maxEntries, ops, file);
  }

  // ----- the object -----------------------------------------------------------------

  /** The list that the three maps stand for. */
  function Entries(order: seq<string>, cache: map<string, set<int>>, mtimes: map<string, int>): seq<Entry>
    requires forall f :: f in order ==> f in cache && f in mtimes
  {
    if order == [] then []
    else [Entry(order[0], cache[order[0]], mtimes[order[0]])] + Entries(order[1..], cache, mtimes)
  }

  lemma {:induction false} EntriesFiles(order: seq<string>, cache: map<string, set<int>>, mtimes: map<string, int>)
    requires forall f :: f in order ==> f in cache && f in mtimes
    ensures Files(Entries(order, cache, mtimes)) == order
    ensures forall f :: f in order ==> Find(Entries(order, cache, mtimes), f) == Some(Entry(f, cache[f], mtimes[f]))
    ensures forall f :: f !in order ==> Find(Entries(order, cache, mtimes), f) == None
  {
    if order != [] {
      EntriesFiles(order[1..], cache, mtimes);
    }
  }

  /** Maps that agree on the order's files stand for the same list. */
  lemma {:induction false} EntriesSame(
      order: seq<string>, c: map<string, set<int>>, m: map<string, int>, d: map<string, set<int>>, n: map<string, int>)
    requires forall f :: f in order ==> f in c && f in m && f in d && f in n && c[f] == d[f] && m[f] == n[f]
    ensures Entries(order, c, m) == Entries(order, d, n)
  {
    if order != [] {
      EntriesSame(order[1..], c, m, d, n);
    }
  }

  lemma {:induction false} EntriesAppend(order: seq<string>, f: string, c: map<string, set<int>>, m: map<string, int>)
    requires forall g :: g in order + [f] ==> g in c && g in m
    ensures forall g :: g in order ==> g in c && g in m
    ensures f in c && f in m
    ensures Entries(order + [f], c, m) == Entries(order, c, m) + [Entry(f, c[f], m[f])]
  {
    assert f in order + [f];
    assert forall g :: g in order ==> g in order + [f];
    if order == [] {
      assert (order + [f])[1..] == [];
    } else {
      assert (order + [f])[1..] == order[1..] + [f];
      EntriesAppend(order[1..], f, c, m);
    }
  }

  lemma {:induction false} EntriesDrop(order: seq<string>, f: string, c: map<string, set<int>>, m: map<string, int>)
    requires Distinct(order) && forall g :: g in order ==> g in c && g in m
    ensures forall g :: g in Without(order, f) ==> g in c && g in m
    ensures Entries(Without(order, f), c, m) == Drop(Entries(order, c, m), f)
  {
    WithoutElements(order, f);
    if order != [] && order[0] != f {
      EntriesDrop(order[1..], f, c, m);
    }
  }

  class BreakpointCache {
    const maxEntries: int
    var cache: map<string, set<int>>
    var fileMtimes: map<string, int>
    var accessOrder: seq<string>
    /** `CacheManager._global_cache_enabled`. */
    var enabled: bool

    /** The three maps have the same keys. */
    ghost predicate Valid()
      reads this
    {
      && Distinct(accessOrder)
      && (forall f :: f in accessOrder <==> f in cache)
      && (forall f :: f in cache <==> f in fileMtimes)
    }

    ghost function View(): Lru
      reads this
      requires Valid()
    {
      Lru(Entries(accessOrder, cache, fileMtimes), maxEntries, enabled)
    }

    constructor (maxEntries: int)
      ensures Valid() && View() == Run(maxEntries, [])
    {
      this.maxEntries := maxEntries;
      cache, fileMtimes, accessOrder, enabled := map[], map[], [], true;
    }

    method RemoveEntry(file: string)
      requires Valid()
      modifies this
      ensures Valid() && View() == old(View()).(entries := Drop(old(View().entries), file))
      ensures cache == old(cache) - {file} && fileMtimes == old(fileMtimes) - {file}
    {
      ghost var order, c, m := accessOrder, cache, fileMtimes;
      EntriesDrop(order, file, c, m);
      WithoutElements(order, file);
      cache := cache - {file};
      fileMtimes := fileMtimes - {file};
      accessOrder := Without(accessOrder, file);
      EntriesSame(accessOrder, c, m, cache, fileMtimes);
    }

    method GetBreakpoints(file: string, stat: FileStat) returns (lines: Option<set<int>>)
      requires Valid()
      modifies this
      ensures Valid() && (View(), lines) == DoGet(old(View()), file, stat)
      ensures var served := file in old(cache) && (stat == Missing || OfTest(file) || old(fileMtimes)[file] >= stat.mtime);
        && lines == (if served then Some(old(cache)[file]) else None)
        && cache == (if served then old(cache) else old(cache) - {file})
        && fileMtimes == (if served then old(fileMtimes) else old(fileMtimes) - {file})
    {
      ContainsIff(file, "test_");
      ContainsIff(file, "test/");
      ContainsIff(file, "test\\");
      hide Contains, OccursAt;
      EntriesFiles(accessOrder, cache, fileMtimes);
      if file in cache {
        if Exempt(file, stat) || (stat.Present? && fileMtimes[file] >= stat.mtime) {
          EntriesDrop(accessOrder, file, cache, fileMtimes);
          WithoutElements(accessOrder, file);
          AppendOrder(Without(accessOrder, file), file);
          EntriesAppend(Without(accessOrder, file), file, cache, fileMtimes);
          accessOrder := MoveToEnd(accessOrder, file);
          return Some(cache[file]);
        }
        RemoveEntry(file);
      }
      return None;
    }

    /** At capacity, evict the least recently used file before storing another. */
    method MakeRoom()
      requires Valid()
      modifies this
      ensures Valid() && (forall f :: f in cache ==> f in old(cache))
      ensures var s := old(View().entries);
        View() == old(View()).(entries := if |s| >= maxEntries && s != [] then s[1..] else s)
    {
      EntriesFiles(accessOrder, cache, fileMtimes);
      DomainSize(accessOrder, cache.Keys);
      if |cache| >= maxEntries && accessOrder != [] {
        RemoveEntry(accessOrder[0]);
      }
    }

    method Store(file: string, lines: set<int>, mtime: int)
      requires Valid() && file !in cache
      modifies this
      ensures Valid() && View() == old(View()).(entries := old(View().entries) + [Entry(file, lines, mtime)])
    {
      ghost var order, c, m := accessOrder, cache, fileMtimes;
      cache := cache[file := lines];
      fileMtimes := fileMtimes[file := mtime];
      accessOrder := MoveToEnd(accessOrder, file);
      AbsentWithout(order, file);
      AppendOrder(order, file);
      EntriesAppend(order, file, cache, fileMtimes);
      EntriesSame(order, c, m, cache, fileMtimes);
    }

    /** Evict while there are more than `maxEntries`. */
    method Shrink()
      requires Valid()
      modifies this
      ensures Valid() && View() == old(View()).(entries := Trim(old(View().entries), maxEntries))
    {
      EntriesFiles(accessOrder, cache, fileMtimes);
      DomainSize(accessOrder, cache.Keys);
      while |cache| > maxEntries && accessOrder != []
        invariant Valid() && enabled == old(enabled)
        invariant Trim(View().entries, maxEntries) == Trim(old(View().entries), maxEntries)
        invariant |cache| == |accessOrder| == |View().entries|
        decreases |accessOrder|
      {
        WithoutElements(accessOrder, accessOrder[0]);
        RemoveEntry(accessOrder[0]);
        EntriesFiles(accessOrder, cache, fileMtimes);
        DomainSize(accessOrder, cache.Keys);
      }
    }

    method SetBreakpoints(file: string, lines: set<int>, stat: FileStat, now: int)
      requires Valid()
      modifies this
      ensures Valid() && View() == DoSet(old(View()), file, lines, stat, now)
    {
      if !enabled {
        return;
      }
      EntriesFiles(accessOrder, cache, fileMtimes);
      if file in cache {
        RemoveEntry(file);
      } else {
        DropAbsent(View().entries, file);
      }
      if lines == {} {
        return;
      }
      var mtime := if stat.Present? then stat.mtime else now;
      ghost var rest := View().entries;
      MakeRoom();
      Store(file, lines, mtime);
      if rest != [] && |rest| >= maxEntries {
        TrimFront(rest, Entry(file, lines, mtime), maxEntries);
      }
      Shrink();
    }

    method InvalidateFile(file: string)
      requires Valid()
      modifies this
      ensures Valid() && View() == Step(old(View()), Invalidate(file))
    {
      RemoveEntry(file);
    }

    method ClearAll()
      requires Valid()
      modifies this
      ensures Valid() && View() == Step(old(View()), Op.ClearAll)
    {
      cache, fileMtimes, accessOrder := map[], map[], [];
    }

    method SetEnabled(on: bool)
      requires Valid()
      modifies this
      ensures Valid() && View() == Step(old(View()), Enable(on))
    {
      enabled := on;
      if !on {
        ClearAll();
      }
    }
  }

  lemma {:induction false} DropAbsent(s: seq<Entry>, file: string)
    requires Find(s, file).None?
    ensures Drop(s, file) == s
  {
    if s != [] {
      DropAbsent(s[1..], file);
    }
  }

  /** Evicting before adding is the same as trimming afterwards. */
  lemma TrimFront(s: seq<Entry>, e: Entry, max: int)
    requires s != [] && |s| >= max
    ensures Trim(s[1..] + [e], max) == Trim(s + [e], max)
  {
    assert (s + [e])[1..] == s[1..] + [e];
  }
}
