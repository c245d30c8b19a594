/**
  The stores of modified code: `CacheManager._func_code_cache` and `_func_code_paths`, the
  code-extra metadata of the frame evaluator, and the memo of `BytecodeModifier`.  All are
  dicts keyed by code objects, which Python compares by `value`: equal code objects share an
  entry even when they come from different files.
 */
module ModifiedCode {
  import opened Wrappers

  /** What Python compares of a code object, and dicts use as its key. */
  datatype Key = Key(n: int)

  /** A code object: its key, the file it was compiled from, and its identity. */
  datatype Code = Code(value: Key, file: string, id: int)

  datatype Metadata = Metadata(modified: Code, lines: set<int>)

  /** The memo of one key: the file of the code object that is the key, which is the first of
      its equals, and the code built for each breakpoint set. */
  datatype Memo = Memo(keyFile: string, built: map<set<int>, Code>)

  datatype Stores = Stores(
    funcCode: map<Key, Code>, funcPaths: map<Key, string>,
    extra: map<Key, Metadata>, memo: map<Key, Memo>)

  /** What happens when injection is really attempted. */
  datatype Attempt = NoSites | Rebuilt(modified: Code) | Rejected | Raised

  datatype Op =
    | Inject(code: Code, lines: set<int>, attempt: Attempt)
    | Store(code: Code, modified: Code, lines: set<int>)
    | Invalidate(file: string)
    | ClearAll

  // ----- operations -----------------------------------------------------------------

  function Stored(s: Stores, code: Code, modified: Code, lines: set<int>): Stores {
    s.(funcCode := s.funcCode[code.value := modified], funcPaths := s.funcPaths[code.value := code.file],
       extra := s.extra[code.value := Metadata(modified, lines)])
  }

  function Memoised(s: Stores, value: Key, lines: set<int>): Option<Code> {
    if value in s.memo && lines in s.memo[value].built then Some(s.memo[value].built[lines]) else None
  }

  /** A key that is already there stays, with its file. */
  function WithMemo(s: Stores, code: Code, lines: set<int>, modified: Code): Stores {
    var known := if code.value in s.memo then s.memo[code.value] else Memo(code.file, map[]);
    s.(memo := s.memo[code.value := known.(built := known.built[lines := modified])])
  }

  /** `inject_breakpoints` on one code object: the new stores, success, and the code to run. */
  function DoInject(s: Stores, code: Code, lines: set<int>, attempt: Attempt): (Stores, bool, Code) {
    if lines == {} then (s, true, code)
    else
      match Memoised(s, code.value, lines)
      case Some(modified) => (Stored(s, code, modified, lines), true, modified)
      case None =>
        match attempt
        case NoSites => (s, true, code)
        case Rebuilt(modified) =>
          (Stored(WithMemo(s, code, lines, modified), code, modified, lines), true, modified)
        case Rejected => (s, false, code)
        case Raised => (s, false, code)
  }

  /** Keys whose recorded path is `file`. */
  function CachedFor(s: Stores, file: string): set<Key> {
    set v | v in s.funcPaths && s.funcPaths[v] == file
  }

  /** Keys of `file` in the memo. */
  function MemoFor(s: Stores, file: string): set<Key> {
    set v | v in s.memo && s.memo[v].keyFile == file
  }

  function DropCached(s: Stores, keys: set<Key>): Stores {
    s.(funcCode := s.funcCode - keys, funcPaths := s.funcPaths - keys)
  }

  function DropMemo(s: Stores, keys: set<Key>): Stores {
    DropCached(s, keys).(memo := s.memo - keys, extra := s.extra - keys)
  }

  /** `invalidate_breakpoints`: first the cached codes of the file, then its memo entries with
      their metadata, then the metadata of the codes removed first. */
  function DoInvalidate(s: Stores, file: string): Stores {
    var removed := CachedFor(s, file);
    var t := DropCached(s, removed);
    var u := DropMemo(t, MemoFor(t, file));
    u.(extra := u.extra - removed)
  }

  /** `clear_all_caches`: metadata goes only for codes that are still cached. */
  function DoClear(s: Stores): Stores {
    Stores(map[], map[], s.extra - s.funcCode.Keys, map[])
  }

  function Step(s: Stores, op: Op): Stores {
    match op
    case Inject(code, lines, attempt) => DoInject(s, code, lines, attempt).0
    case Store(code, modified, lines) => Stored(s, code, modified, lines)
    case Invalidate(file) => DoInvalidate(s, file)
    case ClearAll => DoClear(s)
  }

  function Run(ops: seq<Op>): Stores {
    if ops == [] then Stores(map[], map[], map[], map[])
    else Step(Run(ops[..|ops| - 1]), ops[|ops| - 1])
  }

  /** `_get_modified_code_for_evaluation`: metadata first, then the cache. */
  function Lookup(s: Stores, code: Code): Option<Code> {
    if code.value in s.extra then Some(s.extra[code.value].modified)
    else if code.value in s.funcCode then Some(s.funcCode[code.value])
    else None
  }

  // ----- the stores agree -----------------------------------------------------------

  /** One key set for cache and paths, with the metadata inside it and in accord. */
  predicate Agree(s: Stores) {
    && s.funcCode.Keys == s.funcPaths.Keys
    && s.extra.Keys <= s.funcCode.Keys
    && (forall v :: v in s.extra ==> s.extra[v].modified == s.funcCode[v])
  }

  /** All the stores hold for one key. */
  datatype View = View(cached: Option<Code>, path: Option<string>, extra: Option<Metadata>, memo: Option<Memo>)

  const NOTHING := View(None, None, None, None)

  function At(s: Stores, value: Key): View {
    View(if value in s.funcCode then Some(s.funcCode[value]) else None,
         if value in s.funcPaths then Some(s.funcPaths[value]) else None,
         if value in s.extra then Some(s.extra[value]) else None,
         if value in s.memo then Some(s.memo[value]) else None)
  }

  lemma StepAgrees(s: Stores, op: Op)
    requires Agree(s)
    ensures Agree(Step(s, op))
  {
  }

  lemma {:induction false} RunAgrees(ops: seq<Op>)
    ensures Agree(Run(ops))
  {
    if ops != [] {
      hide Agree, Step;
      RunAgrees(ops[..|ops| - 1]);
      StepAgrees(Run(ops[..|ops| - 1]), ops[|ops| - 1]);
    }
  }

  /** What invalidating a file does to one key: everything goes when the memo key is of that
      file; the cache and metadata go when the recorded path is; otherwise nothing changes. */
  lemma InvalidatedAt(s: Stores, file: string, value: Key)
    requires Agree(s)
    ensures var before := At(s, value);
      At(DoInvalidate(s, file), value) ==
      if before.memo.Some? && before.memo.value.keyFile == file then NOTHING
      else if before.path == Some(file) then View(None, None, None, before.memo)
      else before
  {
  }

  /** The memo stays inside the cache exactly when no key goes whose memo is another file's. */
  lemma MemoStaysCachedIff(s: Stores, file: string)
    requires Agree(s) && s.memo.Keys <= s.funcCode.Keys
    ensures DoInvalidate(s, file).memo.Keys <= DoInvalidate(s, file).funcCode.Keys <==>
      forall v :: v in s.memo && s.funcPaths[v] == file ==> s.memo[v].keyFile == file
  {
    var t := DoInvalidate(s, file);
    forall v
      ensures v in t.memo <==> v in s.memo && s.memo[v].keyFile != file
      ensures v in t.funcCode <==>
        v in s.funcCode && s.funcPaths[v] != file && !(v in s.memo && s.memo[v].keyFile == file)
    {
      InvalidatedAt(s, file, v);
      assert v in t.memo <==> At(t, v).memo.Some?;
      assert v in t.funcCode <==> At(t, v).cached.Some?;
    }
    if !(t.memo.Keys <= t.funcCode.Keys) {
      var v :| v in t.memo.Keys && v !in t.funcCode.Keys;
      assert v in s.memo && v in s.funcCode.Keys;
    } else {
      forall v | v in s.memo && s.funcPaths[v] == file ensures s.memo[v].keyFile == file {
        assert v in t.memo ==> v in t.memo.Keys;
      }
    }
  }

  // ----- exact invalidation ---------------------------------------------------------

  predicate Storing(s: Stores, op: Op) {
    op.Store? || (op.Inject? && op.lines != {} && (Memoised(s, op.code.value, op.lines).Some? || op.attempt.Rebuilt?))
  }

  function StillThere(kept: set<Code>, s: Stores): set<Code> {
    set c | c in kept && At(s, c.value) != NOTHING
  }

  /** The code objects that something was stored for and whose entry is still there. */
  function Kept(ops: seq<Op>): set<Code> {
    if ops == [] then {}
    else
      var before, op := ops[..|ops| - 1], ops[|ops| - 1];
      if Storing(Run(before), op) then Kept(before) + {op.code}
      else StillThere(Kept(before), Run(ops))
  }

  predicate IsKept(kept: set<Code>, value: Key, file: string) {
    exists c :: c in kept && c.value == value && c.file == file
  }

  /** Every entry has a code object it is kept for, of the file recorded with it. */
  ghost predicate Backed(s: Stores, kept: set<Code>) {
    && Agree(s)
    && (forall v :: v in s.funcPaths ==> IsKept(kept, v, s.funcPaths[v]))
    && (forall v :: v in s.memo ==> IsKept(kept, v, s.memo[v].keyFile))
    && (forall c :: c in kept ==> c.value in s.funcCode || c.value in s.memo)
  }

  lemma KeptMore(kept: set<Code>, c: Code, value: Key, file: string)
    requires IsKept(kept, value, file) || (value == c.value && file == c.file)
    ensures IsKept(kept + {c}, value, file)
  {
    if IsKept(kept, value, file) {
      var d :| d in kept && d.value == value && d.file == file;
      assert d in kept + {c};
    } else {
      assert c in kept + {c};
    }
  }

  lemma KeptStill(kept: set<Code>, t: Stores, value: Key, file: string)
    requires IsKept(kept, value, file) && At(t, value) != NOTHING
    ensures IsKept(StillThere(kept, t), value, file)
  {
    var d :| d in kept && d.value == value && d.file == file;
    assert d in StillThere(kept, t);
  }

  lemma BackedStore(s: Stores, kept: set<Code>, op: Op)
    requires Backed(s, kept) && Storing(s, op)
    ensures Backed(Step(s, op), kept + {op.code})
  {
    hide IsKept;
    var t := Step(s, op);
    StepAgrees(s, op);
    forall v | v in t.funcPaths ensures IsKept(kept + {op.code}, v, t.funcPaths[v]) {
      KeptMore(kept, op.code, v, t.funcPaths[v]);
    }
    forall v | v in t.memo ensures IsKept(kept + {op.code}, v, t.memo[v].keyFile) {
      KeptMore(kept, op.code, v, t.memo[v].keyFile);
    }
  }

  lemma BackedDrop(s: Stores, kept: set<Code>, op: Op)
    requires Backed(s, kept) && !Storing(s, op)
    ensures Backed(Step(s, op), StillThere(kept, Step(s, op)))
  {
    var t := Step(s, op);
    StepAgrees(s, op);
    forall v ensures At(t, v).path.Some? ==> At(t, v).path == At(s, v).path
      ensures At(t, v).memo.Some? ==> At(t, v).memo == At(s, v).memo
    {
      if op.Invalidate? {
        InvalidatedAt(s, op.file, v);
      }
    }
    hide IsKept, Step;
    forall v | v in t.funcPaths
      ensures IsKept(StillThere(kept, t), v, t.funcPaths[v])
    {
      assert At(t, v).path.Some?;
      KeptStill(kept, t, v, t.funcPaths[v]);
    }
    forall v | v in t.memo
      ensures IsKept(StillThere(kept, t), v, t.memo[v].keyFile)
    {
      assert At(t, v).memo.Some?;
      KeptStill(kept, t, v, t.memo[v].keyFile);
    }
  }

  lemma {:induction false} AlwaysBacked(ops: seq<Op>)
    ensures Backed(Run(ops), Kept(ops))
  {
    if ops != [] {
      hide Backed, Step, Storing, At;
      var before, op := ops[..|ops| - 1], ops[|ops| - 1];
      AlwaysBacked(before);
      if Storing(Run(before), op) {
        BackedStore(Run(before), Kept(before), op);
      } else {
        BackedDrop(Run(before), Kept(before), op);
      }
    }
  }

  /** Invalidating `file` takes away everything kept for its code objects and leaves what is
      kept for those of other files. */
  ghost predicate InvalidatesExactly(s: Stores, kept: set<Code>, file: string) {
    forall c :: c in kept ==> At(DoInvalidate(s, file), c.value) == if c.file == file then NOTHING else At(s, c.value)
  }

  /** No code object of `file` that something is kept for equals one of another file. */
  ghost predicate NotShared(kept: set<Code>, file: string) {
    forall a, b :: a in kept && b in kept && a.value == b.value && a.file == file ==> b.file == file
  }

  /** Over every run, invalidation is exact if and only if no code object kept for the file
      equals one kept for another file. */
  lemma InvalidateIsExactIff(ops: seq<Op>, file: string)
    ensures InvalidatesExactly(Run(ops), Kept(ops), file) <==> NotShared(Kept(ops), file)
  {
    hide Run, Kept;
    AlwaysBacked(ops);
    var s, kept := Run(ops), Kept(ops);
    if NotShared(kept, file) {
      forall c | c in kept
        ensures At(DoInvalidate(s, file), c.value) == if c.file == file then NOTHING else At(s, c.value)
      {
        ExactAt(s, kept, file, c);
      }
    } else {
      var a, b :| a in kept && b in kept && a.value == b.value && a.file == file && b.file != file;
      assert At(s, b.value) != NOTHING;
    }
  }

  lemma ExactAt(s: Stores, kept: set<Code>, file: string, c: Code)
    requires Backed(s, kept) && NotShared(kept, file) && c in kept
    ensures At(DoInvalidate(s, file), c.value) == if c.file == file then NOTHING else At(s, c.value)
  {
    hide DoInvalidate;
    InvalidatedAt(s, file, c.value);
    if c.value in s.funcPaths {
      var d :| d in kept && d.value == c.value && d.file == s.funcPaths[c.value];
    }
    if c.value in s.memo {
      var e :| e in kept && e.value == c.value && e.file == s.memo[c.value].keyFile;
    }
  }

  /** The input that fails: after storing for two equal code objects of two files, invalidating
      the second file takes the first file's entry with it. */
  lemma SharedEntryIsLost(a: Code, b: Code, m: Code, n: Code, lines: set<int>)
    requires a.value == b.value && a.file != b.file
    ensures var ops := [Store(a, m, lines), Store(b, n, lines)];
      && Lookup(Run(ops), a) == Some(n)
      && Lookup(Run(ops + [Invalidate(b.file)]), a) == None
      && !InvalidatesExactly(Run(ops), Kept(ops), b.file)
  {
    var o1 := [Store(a, m, lines)];
    var o2 := [Store(a, m, lines), Store(b, n, lines)];
    var o3 := o2 + [Invalidate(b.file)];
    assert o1[..0] == [] && o2[..1] == o1 && o3[..2] == o2;
    assert Run(o1) == Stored(Run([]), a, m, lines) && Kept(o1) == {a};
    assert Run(o2) == Stored(Run(o1), b, n, lines) && Kept(o2) == {a, b};
    assert Run(o3) == DoInvalidate(Run(o2), b.file);
    RunAgrees(o2);
    InvalidatedAt(Run(o2), b.file, a.value);
    assert At(Run(o3), a.value).cached.None? && At(Run(o3), a.value).extra.None?;
    InvalidateIsExactIff(o2, b.file);
    assert !NotShared(Kept(o2), b.file);
  }

  // ----- what the history says ------------------------------------------------------

  /** Who stored last under a key, whose code it was built from, and what. */
  datatype Service = Service(storer: Code, builder: Code, modified: Code)

  /** The code built for a breakpoint set since the memo of the key was dropped, and the code
      object it was built from. */
  function Built(ops: seq<Op>, value: Key, lines: set<int>): Option<(Code, Code)> {
    if ops == [] then None
    else
      var before := ops[..|ops| - 1];
      match ops[|ops| - 1]
      case Inject(c, l, attempt) =>
        if c.value == value && l == lines && lines != {} && Built(before, value, lines).None? && attempt.Rebuilt?
        then Some((c, attempt.modified))
        else Built(before, value, lines)
      case Store(_, _, _) => Built(before, value, lines)
      case Invalidate(file) => if Owner(before, value) == Some(file) then None else Built(before, value, lines)
      case ClearAll => None
  }

  /** The file of the code object whose memo the key has. */
  function Owner(ops: seq<Op>, value: Key): Option<string> {
    if ops == [] then None
    else
      var before := ops[..|ops| - 1];
      match ops[|ops| - 1]
      case Inject(c, lines, attempt) =>
        if c.value == value && lines != {} && Built(before, value, lines).None? && attempt.Rebuilt?
           && Owner(before, value).None?
        then Some(c.file)
        else Owner(before, value)
      case Store(_, _, _) => Owner(before, value)
      case Invalidate(file) => if Owner(before, value) == Some(file) then None else Owner(before, value)
      case ClearAll => None
  }

  /** What was stored last under a key, unless the file that stored it or the owner of the memo
      was invalidated, or everything cleared, since. */
  function Served(ops: seq<Op>, value: Key): Option<Service> {
    if ops == [] then None
    else
      var before := ops[..|ops| - 1];
      match ops[|ops| - 1]
      case Inject(c, lines, attempt) =>
        if c.value != value || lines == {} then Served(before, value)
        else if Built(before, value, lines).Some? then
          var (builder, modified) := Built(before, value, lines).value;
          Some(Service(c, builder, modified))
        else if attempt.Rebuilt? then Some(Service(c, c, attempt.modified))
        else Served(before, value)
      case Store(c, modified, _) =>
        if c.value == value then Some(Service(c, c, modified)) else Served(before, value)
      case Invalidate(file) =>
        if Owner(before, value) == Some(file) then None
        else if Served(before, value).Some? && Served(before, value).value.storer.file == file then None
        else Served(before, value)
      case ClearAll => None
  }

  /** The memo holds exactly the code built first for a key and breakpoint set, under the file
      that owns it. */
  lemma {:induction false} MemoIsBuilt(ops: seq<Op>, value: Key, lines: set<int>)
    ensures Memoised(Run(ops), value, lines) ==
      if Built(ops, value, lines).Some? then Some(Built(ops, value, lines).value.1) else None
    ensures Owner(ops, value) == if value in Run(ops).memo then Some(Run(ops).memo[value].keyFile) else None
  {
    if ops != [] {
      hide Agree;
      var before, op := ops[..|ops| - 1], ops[|ops| - 1];
      MemoIsBuilt(before, value, lines);
      match op
      case Inject(c, l, attempt) =>
        MemoIsBuilt(before, value, l);
      case Invalidate(file) =>
        RunAgrees(before);
        InvalidatedAt(Run(before), file, value);
        hide Step;
        assert Run(ops) == DoInvalidate(Run(before), file);
        assert value in Run(ops).memo <==> At(Run(ops), value).memo.Some?;
        assert value in Run(ops).memo ==> At(Run(ops), value).memo == Some(Run(ops).memo[value]);
      case _ =>
    }
  }

  lemma {:induction false} CachedIsServed(ops: seq<Op>, value: Key)
    ensures var view := At(Run(ops), value);
      && view.cached == (if Served(ops, value).Some? then Some(Served(ops, value).value.modified) else None)
      && view.path == (if Served(ops, value).Some? then Some(Served(ops, value).value.storer.file) else None)
  {
    if ops != [] {
      hide Memoised, Agree;
      var before, op := ops[..|ops| - 1], ops[|ops| - 1];
      CachedIsServed(before, value);
      match op
      case Inject(c, lines, attempt) => MemoIsBuilt(before, c.value, lines);
      case Invalidate(file) =>
        RunAgrees(before);
        MemoIsBuilt(before, value, {});
        InvalidatedAt(Run(before), file, value);
      case _ =>
    }
  }

  /** Over every run, the two-tier lookup and the plain cache both give what was stored last
      under the key of the code object. */
  lemma LookupIsLastStored(ops: seq<Op>, code: Code)
    ensures Lookup(Run(ops), code) == At(Run(ops), code.value).cached
    ensures Lookup(Run(ops), code) ==
      if Served(ops, code.value).Some? then Some(Served(ops, code.value).value.modified) else None
  {
    hide Run, Served;
    RunAgrees(ops);
    CachedIsServed(ops, code.value);
  }

  /** An injection that succeeds with a changed code object returns the one built for exactly
      the requested breakpoints from an equal code object, and evaluation finds it next. */
  lemma InjectionServesFreshCode(ops: seq<Op>, code: Code, lines: set<int>, attempt: Attempt)
    ensures var (s, ok, result) := DoInject(Run(ops), code, lines, attempt);
      var built := Built(ops + [Inject(code, lines, attempt)], code.value, lines);
      ok && result != code ==> Lookup(s, code) == Some(result) && built.Some? && built.value.1 == result
  {
    MemoIsBuilt(ops, code.value, lines);
    assert (ops + [Inject(code, lines, attempt)])[..|ops|] == ops;
  }

  /** When nested code was instrumented first, what is injected is another code object than the
      frame's: the frame's own lookup does not see it, until the caller stores it for that. */
  lemma NestedInjectionIsUnseen(ops: seq<Op>, code: Code, outer: Code, lines: set<int>, attempt: Attempt)
    requires outer.value != code.value
    ensures var after := ops + [Inject(outer, lines, attempt)];
      var result := DoInject(Run(ops), outer, lines, attempt).2;
      && Lookup(Run(after), code) == Lookup(Run(ops), code)
      && Lookup(Run(after + [Store(code, result, lines)]), code) == Some(result)
  {
    var after := ops + [Inject(outer, lines, attempt)];
    var result := DoInject(Run(ops), outer, lines, attempt).2;
    assert after[..|ops|] == ops;
    var last := after + [Store(code, result, lines)];
    assert last[..|after|] == after;
  }

  // ----- whose code is served -------------------------------------------------------

  /** A rebuilt code object keeps the file of the original. */
  predicate Faithful(op: Op) {
    && (op.Inject? && op.attempt.Rebuilt? ==> op.attempt.modified.file == op.code.file)
    && (op.Store? ==> op.modified.file == op.code.file)
  }

  lemma {:induction false} BuiltKeepsFile(ops: seq<Op>, value: Key, lines: set<int>)
    requires forall i :: 0 <= i < |ops| ==> Faithful(ops[i])
    ensures Built(ops, value, lines).Some? ==>
      var (builder, modified) := Built(ops, value, lines).value;
      modified.file == builder.file && builder.value == value
  {
    if ops != [] {
      var before := ops[..|ops| - 1];
      assert forall i :: 0 <= i < |before| ==> before[i] == ops[i];
      BuiltKeepsFile(before, value, lines);
      assert Faithful(ops[|ops| - 1]);
    }
  }

  lemma {:induction false} ServedKeepsFile(ops: seq<Op>, value: Key)
    requires forall i :: 0 <= i < |ops| ==> Faithful(ops[i])
    ensures Served(ops, value).Some? ==>
      var served := Served(ops, value).value;
      served.modified.file == served.builder.file && served.builder.value == served.storer.value == value
  {
    if ops != [] {
      var before, op := ops[..|ops| - 1], ops[|ops| - 1];
      assert forall i :: 0 <= i < |before| ==> before[i] == ops[i];
      ServedKeepsFile(before, value);
      assert Faithful(op);
      if op.Inject? {
        BuiltKeepsFile(before, value, op.lines);
      }
    }
  }

  /** A lookup gives code of the file asked for exactly when what was stored last under the key
      was built from a code object of that file. */
  lemma LookupIsOwnFileIff(ops: seq<Op>, code: Code)
    requires forall i :: 0 <= i < |ops| ==> Faithful(ops[i])
    requires Lookup(Run(ops), code).Some?
    ensures Served(ops, code.value).Some?
    ensures Lookup(Run(ops), code).value.file == code.file <==> Served(ops, code.value).value.builder.file == code.file
  {
    LookupIsLastStored(ops, code);
    ServedKeepsFile(ops, code.value);
  }

  predicate About(op: Op, value: Key) {
    (op.Inject? || op.Store?) && op.code.value == value
  }

  /** When every equal code object in the run is of the same file, that is always so, and the
      entry goes exactly when that file is invalidated. */
  lemma {:induction false} OneFileServesItself(ops: seq<Op>, code: Code)
    requires forall i :: 0 <= i < |ops| && About(ops[i], code.value) ==> ops[i].code.file == code.file
    ensures Served(ops, code.value).Some? ==> Served(ops, code.value).value.storer.file == code.file
    ensures Owner(ops, code.value).Some? ==> Owner(ops, code.value).value == code.file
    ensures ops != [] && ops[|ops| - 1].Invalidate? ==>
      Served(ops, code.value) ==
      if ops[|ops| - 1].file == code.file then None else Served(ops[..|ops| - 1], code.value)
  {
    if ops != [] {
      var before, op := ops[..|ops| - 1], ops[|ops| - 1];
      assert forall i :: 0 <= i < |before| ==> before[i] == ops[i];
      OneFileServesItself(before, code);
      assert About(op, code.value) ==> op.code.file == code.file;
      MemoIsBuilt(before, code.value, {});
    }
  }

  /** What was stored for a code object is found again, with its breakpoint lines, by every
      equal one, until something is stored for an equal one, invalidated or cleared. */
  lemma {:induction false} StoredIsFound(ops: seq<Op>, i: nat, code: Code)
    requires i < |ops| && ops[i].Store? && ops[i].code.value == code.value
    requires forall j :: i < j < |ops| ==> !About(ops[j], code.value) && !ops[j].Invalidate? && !ops[j].ClearAll?
    ensures Lookup(Run(ops), code) == Some(ops[i].modified)
    ensures code.value in Run(ops).extra && Run(ops).extra[code.value] == Metadata(ops[i].modified, ops[i].lines)
    ensures code.value in Run(ops).funcPaths && Run(ops).funcPaths[code.value] == ops[i].code.file
  {
    var n := |ops| - 1;
    if i < n {
      assert forall j :: 0 <= j < n ==> ops[..n][j] == ops[j];
      assert !About(ops[n], code.value);
      StoredIsFound(ops[..n], i, code);
    }
  }

  // ----- the memo and the cache -----------------------------------------------------

  /** Over every run, the keys of the memo are inside those of the cache exactly when every key
      whose memo has an owner is also served. */
  lemma MemoIsCachedIff(ops: seq<Op>)
    ensures Run(ops).memo.Keys <= Run(ops).funcCode.Keys <==>
      forall v :: Owner(ops, v).Some? ==> Served(ops, v).Some?
  {
    hide Run, Owner, Served, Built;
    var s := Run(ops);
    forall v
      ensures v in s.memo.Keys <==> Owner(ops, v).Some?
      ensures v in s.funcCode.Keys <==> Served(ops, v).Some?
    {
      MemoIsBuilt(ops, v, {});
      CachedIsServed(ops, v);
      assert v in s.funcCode <==> At(s, v).cached.Some?;
    }
    if s.memo.Keys <= s.funcCode.Keys {
      forall v | Owner(ops, v).Some? ensures Served(ops, v).Some? {
        assert v in s.memo.Keys;
      }
    } else {
      var v := Outside(s.memo.Keys, s.funcCode.Keys);
      assert Owner(ops, v).Some? && Served(ops, v).None?;
    }
  }

  lemma Outside<T>(a: set<T>, b: set<T>) returns (v: T)
    requires !(a <= b)
    ensures v in a && v !in b
  {
    v :| v in a && v !in b;
  }

  lemma {:induction false} OwnedIsServed(ops: seq<Op>, code: Code)
    requires forall i :: 0 <= i < |ops| && About(ops[i], code.value) ==> ops[i].code.file == code.file
    ensures Owner(ops, code.value).Some? ==> Served(ops, code.value).Some?
  {
    if ops != [] {
      var before := ops[..|ops| - 1];
      assert forall i :: 0 <= i < |before| ==> before[i] == ops[i];
      OwnedIsServed(before, code);
      OneFileServesItself(before, code);
    }
  }

  /** All equal code objects of the run are of one file. */
  ghost predicate OneFilePerKey(ops: seq<Op>) {
    forall i, j, v ::
      0 <= i < |ops| && 0 <= j < |ops| && About(ops[i], v) && About(ops[j], v) ==> ops[i].code.file == ops[j].code.file
  }

  /** Where all equal code objects of a run are of one file, the memo stays inside the cache
      over the whole run. */
  lemma OneFileMemoIsCached(ops: seq<Op>)
    requires OneFilePerKey(ops)
    ensures Run(ops).memo.Keys <= Run(ops).funcCode.Keys
  {
    hide Run, Owner, Served;
    forall v | Owner(ops, v).Some? ensures Served(ops, v).Some? {
      var j := OwnerIsAbout(ops, v);
      OwnedIsServed(ops, ops[j].code);
    }
    MemoIsCachedIff(ops);
  }

  lemma {:induction false} OwnerIsAbout(ops: seq<Op>, value: Key) returns (j: nat)
    requires Owner(ops, value).Some?
    ensures j < |ops| && About(ops[j], value)
  {
    var n := |ops| - 1;
    if Owner(ops[..n], value).Some? {
      j := OwnerIsAbout(ops[..n], value);
    } else {
      j := n;
    }
  }

  /** Two equal code objects of two files are enough to leave a memo without its entry. */
  lemma MemoOutlivesEntry(a: Code, b: Code, m: Code, lines: set<int>)
    requires a.value == b.value && a.file != b.file && lines != {}
    ensures var ops := [Inject(a, lines, Rebuilt(m)), Store(b, m, lines), Invalidate(b.file)];
      a.value in Run(ops).memo && a.value !in Run(ops).funcCode
  {
    var o1 := [Inject(a, lines, Rebuilt(m))];
    var o2 := [Inject(a, lines, Rebuilt(m)), Store(b, m, lines)];
    var o3 := [Inject(a, lines, Rebuilt(m)), Store(b, m, lines), Invalidate(b.file)];
    assert o1[..0] == [] && o2[..1] == o1 && o3[..2] == o2;
    assert Run(o1) == DoInject(Run([]), a, lines, Rebuilt(m)).0;
    assert Run(o1).memo[a.value].keyFile == a.file;
    assert Run(o2) == Stored(Run(o1), b, m, lines);
    RunAgrees(o2);
    InvalidatedAt(Run(o2), b.file, a.value);
    assert At(Run(o3), a.value).memo.Some? && At(Run(o3), a.value).cached.None?;
  }

  /** The public `remove_cached_code` keeps the metadata inside the cache exactly when none of
      the code object is left behind. */
  lemma RemoveCachedAgreesIff(s: Stores, code: Code)
    requires Agree(s) && s.memo.Keys <= s.funcCode.Keys
    ensures var t := DropCached(s, {code.value});
      Agree(t) && t.memo.Keys <= t.funcCode.Keys <==> code.value !in s.extra && code.value !in s.memo
  {
    var t := DropCached(s, {code.value});
    assert t.funcCode.Keys == s.funcCode.Keys - {code.value};
    assert t.funcPaths.Keys == s.funcPaths.Keys - {code.value};
    assert t.extra == s.extra && t.memo == s.memo;
    assert code.value in s.extra ==> code.value in t.extra.Keys;
    assert code.value in s.memo ==> code.value in t.memo.Keys;
  }

  lemma DropMemoTwice(s: Stores, keys: set<Key>, key: Key)
    ensures DropMemo(DropMemo(s, keys), {key}) == DropMemo(s, keys + {key})
  {
  }

  // ----- the object -----------------------------------------------------------------

  class ModifiedCodeStores {
    var funcCode: map<Key, Code>
    var funcPaths: map<Key, string>
    var codeExtra: map<Key, Metadata>
    var modifiedCodeObjects: map<Key, Memo>

    function View(): Stores
      reads this
    {
      Stores(funcCode, funcPaths, codeExtra, modifiedCodeObjects)
    }

    constructor ()
      ensures View() == Run([])
    {
      funcCode, funcPaths, codeExtra, modifiedCodeObjects := map[], map[], map[], map[];
    }

    method StoreModifiedCodeForEvaluation(code: Code, modified: Code, lines: set<int>)
      modifies this
      ensures View() == Step(old(View()), Store(code, modified, lines))
      ensures funcCode == old(funcCode)[code.value := modified] && funcPaths == old(funcPaths)[code.value := code.file]
      ensures codeExtra == old(codeExtra)[code.value := Metadata(modified, lines)]
      ensures modifiedCodeObjects == old(modifiedCodeObjects)
    {
      funcCode := funcCode[code.value := modified];
      funcPaths := funcPaths[code.value := code.file];
      codeExtra := codeExtra[code.value := Metadata(modified, lines)];
    }

    method ApplyInjection(code: Code, lines: set<int>, attempt: Attempt) returns (ok: bool, result: Code)
      requires lines != {}
      modifies this
      ensures (View(), ok, result) == DoInject(old(View()), code, lines, attempt)
      ensures var hit := code.value in old(modifiedCodeObjects) && lines in old(modifiedCodeObjects)[code.value].built;
        && ok == (hit || attempt == NoSites || attempt.Rebuilt?)
        && result == (if hit then old(modifiedCodeObjects)[code.value].built[lines]
                      else if attempt.Rebuilt? then attempt.modified else code)
        && (if hit || attempt.Rebuilt?
            then funcCode == old(funcCode)[code.value := result] && funcPaths == old(funcPaths)[code.value := code.file]
                 && codeExtra == old(codeExtra)[code.value := Metadata(result, lines)]
            else View() == old(View()))
        && (!hit && attempt.Rebuilt? ==>
            && code.value in modifiedCodeObjects && lines in modifiedCodeObjects[code.value].built
            && modifiedCodeObjects[code.value].built[lines] == attempt.modified)
    {
      if code.value in modifiedCodeObjects && lines in modifiedCodeObjects[code.value].built {
        result := modifiedCodeObjects[code.value].built[lines];
        StoreModifiedCodeForEvaluation(code, result, lines);
        return true, result;
      }
      match attempt {
        case NoSites => return true, code;
        case Rejected => return false, code;
        case Raised => return false, code;
        case Rebuilt(modified) =>
          var memo := if code.value in modifiedCodeObjects then modifiedCodeObjects[code.value] else Memo(code.file, map[]);
          modifiedCodeObjects := modifiedCodeObjects[code.value := memo.(built := memo.built[lines := modified])];
          StoreModifiedCodeForEvaluation(code, modified, lines);
          return true, modified;
      }
    }

    method InvalidateCachedCodeForFile(file: string) returns (removed: set<Key>)
      modifies this
      ensures removed == CachedFor(old(View()), file) && View() == DropCached(old(View()), removed)
      ensures forall v :: v in removed <==> v in old(funcPaths) && old(funcPaths)[v] == file
      ensures funcCode == old(funcCode) - removed && funcPaths == old(funcPaths) - removed
      ensures codeExtra == old(codeExtra) && modifiedCodeObjects == old(modifiedCodeObjects)
    {
      removed := set v | v in funcPaths && funcPaths[v] == file;
      var rest := removed;
      while rest != {}
        invariant rest <= removed
        invariant View() == DropCached(old(View()), removed - rest)
        decreases rest
      {
        var key :| key in rest;
        funcCode := funcCode - {key};
        funcPaths := funcPaths - {key};
        rest := rest - {key};
      }
    }

    method InvalidateBytecodeCacheForFile(file: string)
      modifies this
      ensures View() == DropMemo(old(View()), MemoFor(old(View()), file))
    {
      ghost var s := View();
      ghost var all := MemoFor(s, file);
      var rest := set v | v in modifiedCodeObjects && modifiedCodeObjects[v].keyFile == file;
      assert all - rest == {};
      while rest != {}
        invariant rest <= all
        invariant View() == DropMemo(s, all - rest)
        decreases rest
      {
        var key :| key in rest;
        DropMemoTwice(s, all - rest, key);
        assert all - (rest - {key}) == (all - rest) + {key};
        modifiedCodeObjects := modifiedCodeObjects - {key};
        codeExtra := codeExtra - {key};
        funcCode := funcCode - {key};
        funcPaths := funcPaths - {key};
        rest := rest - {key};
      }
      assert all - {} == all;
    }

    method ClearCodeExtra(codes: set<Key>)
      modifies this
      ensures View() == old(View()).(extra := old(codeExtra) - codes)
    {
      var rest := codes;
      while rest != {}
        invariant rest <= codes
        invariant View() == old(View()).(extra := old(codeExtra) - (codes - rest))
        decreases rest
      {
        var key :| key in rest;
        codeExtra := codeExtra - {key};
        rest := rest - {key};
      }
    }

    method InvalidateBreakpoints(file: string)
      modifies this
      ensures View() == Step(old(View()), Invalidate(file))
    {
      var removed := InvalidateCachedCodeForFile(file);
      InvalidateBytecodeCacheForFile(file);
      ClearCodeExtra(removed);
    }

    method ClearAllCaches()
      modifies this
      ensures View() == Step(old(View()), ClearAll)
    {
      ClearCodeExtra(funcCode.Keys);
      modifiedCodeObjects := map[];
      funcCode, funcPaths := map[], map[];
    }

    method GetModifiedCodeForEvaluation(code: Code) returns (r: Option<Code>)
      ensures r == Lookup(View(), code)
      ensures r == if code.value in codeExtra then Some(codeExtra[code.value].modified)
                   else if code.value in funcCode then Some(funcCode[code.value]) else None
    {
      if code.value in codeExtra {
        return Some(codeExtra[code.value].modified);
      }
      if code.value in funcCode {
        return Some(funcCode[code.value]);
      }
      return None;
    }
  }
}
