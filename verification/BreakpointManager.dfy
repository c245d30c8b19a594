/**
  `BreakpointManager`: line breakpoint records held by two indices that share them.  The
  records are objects, so a change through one index is a change through the other.
 */
module BreakpointManager {
  import opened Wrappers
  import opened HitConditions
  import opened BreakpointResolver

  /** The extra keyword arguments of a recording; `hit` may be among them. */
  datatype Extras = Extras(hit: Option<int>, others: map<string, string>)

  /** The contents of a record that recording and counting touch. */
  datatype Entry = Entry(
    hit: Option<int>, condition: Option<string>, hitCondition: Option<string>, logMessage: Option<string>,
    extras: map<string, string>)

  const EMPTY := Entry(None, None, None, None, map[])
  const NEW_ENTRY := Entry(Some(0), None, None, None, map[])

  /** `previous` with a new configuration: the hit count stays unless the caller overrides it. */
  function Rerecorded(
      previous: Entry, condition: Option<string>, hitCondition: Option<string>, logMessage: Option<string>, e: Extras): Entry {
    Entry(if e.hit.Some? then e.hit else if previous.hit.Some? then previous.hit else Some(0),
          condition, hitCondition, logMessage, previous.extras + e.others)
  }

  function Counted(e: Entry): Entry {
    e.(hit := Some((if e.hit.Some? then e.hit.value else 0) + 1))
  }

  function EntryOf(r: BreakpointRecord): Entry
    reads r
  {
    Entry(r.hit, r.condition, r.hitCondition, r.logMessage, r.extras)
  }

  lemma OneEntryChanged(before: map<(string, int), Entry>, after: map<(string, int), Entry>, key: (string, int))
    requires after.Keys == before.Keys + {key}
    requires forall k :: k in before && k != key ==> after[k] == before[k]
    ensures after == before[key := after[key]]
  {
  }

  lemma PlainStops(r: BreakpointRecord, e: Entry, frame: Option<Frame>)
    requires r.Plain() && e == EntryOf(r)
    ensures r.View().hits == if e.hit.Some? then e.hit.value else 0
    ensures Decide(r.View().(hits := r.View().hits + 1), frame).Stops() <==>
      && (e.hitCondition == None || e.hitCondition == Some("")
          || EvaluateHitCondition(e.hitCondition.value, (if e.hit.Some? then e.hit.value else 0) + 1))
      && (e.condition == None || e.condition == Some("")
          || (frame.Some? && frame.value.test(e.condition.value) == Some(true)))
      && (e.logMessage == None || e.logMessage == Some(""))
  {
    hide Decide, EvaluateHitCondition;
    StopsExactlyWhenAllPass(r.View().(hits := r.View().hits + 1), frame);
  }

  // ----- the two indices ------------------------------------------------------------

  type Flat = map<(string, int), BreakpointRecord>
  type Nested = map<string, map<int, BreakpointRecord>>

  predicate Indexed(n: Nested, k: (string, int)) {
    k.0 in n && k.1 in n[k.0]
  }

  /** Both indices hold the same records under the same keys, and no record twice. */
  ghost predicate Consistent(f: Flat, n: Nested) {
    && (forall k :: k in f ==> Indexed(n, k) && n[k.0][k.1] == f[k])
    && (forall k :: Indexed(n, k) ==> k in f)
    && (forall j, k :: j in f && k in f && j != k ==> f[j] != f[k])
  }

  function WithNested(n: Nested, k: (string, int), r: BreakpointRecord): Nested {
    var known: map<int, BreakpointRecord> := if k.0 in n then n[k.0] else map[];
    n[k.0 := known[k.1 := r]]
  }

  /** The keys of some lines of a file. */
  function KeysOf(f: Flat, path: string, lines: set<int>): set<(string, int)> {
    set k | k in f && k.0 == path && k.1 in lines
  }

  lemma ConsistentAdd(f: Flat, n: Nested, k: (string, int), r: BreakpointRecord)
    requires Consistent(f, n) && (k in f ==> f[k] == r) && (k !in f ==> forall j :: j in f ==> f[j] != r)
    ensures Consistent(f[k := r], WithNested(n, k, r))
    ensures k in f ==> f[k := r] == f
  {
  }

  lemma ConsistentClear(f: Flat, n: Nested, path: string)
    requires Consistent(f, n)
    ensures Consistent(map k | k in f && k.0 != path :: f[k], n - {path})
    ensures (map k | k in f && k.0 != path :: f[k]) ==
            if path in n then f - KeysOf(f, path, n[path].Keys) else f - set k | k in f && k.0 == path
  {
    forall k | k in f && k.0 == path ensures path in n && k in KeysOf(f, path, n[path].Keys) {
      assert Indexed(n, k);
    }
  }

  lemma OthersDiffer(f: Flat, n: Nested, key: (string, int))
    requires Consistent(f, n) && key in f
    ensures forall k :: k in f && k != key ==> f[k] != f[key]
    ensures Indexed(n, key) && n[key.0][key.1] == f[key]
  {
  }

  lemma NotIndexed(f: Flat, n: Nested, key: (string, int))
    requires Consistent(f, n) && key !in f
    ensures !Indexed(n, key)
  {
  }

  class BreakpointManager {
    var lineMeta: Flat
    var lineMetaByPath: Nested

    ghost predicate Valid()
      reads this, lineMeta.Values
    {
      Consistent(lineMeta, lineMetaByPath) && AllPlain()
    }

    ghost predicate AllPlain()
      reads this, lineMeta.Values
    {
      forall r :: r in lineMeta.Values ==> r.Plain()
    }

    /** What the manager knows, as one map. */
    ghost function Table(): map<(string, int), Entry>
      reads this, lineMeta.Values
    {
      map k | k in lineMeta :: EntryOf(lineMeta[k])
    }

    constructor ()
      ensures Valid() && Table() == map[] && lineMeta == map[]
    {
      lineMeta, lineMetaByPath := map[], map[];
    }

    method RecordLineBreakpoint(
        path: string, line: int, condition: Option<string>, hitCondition: Option<string>,
        logMessage: Option<string>, extras: Extras)
      requires Valid()
      modifies this, if (path, line) in lineMeta then {lineMeta[(path, line)]} else {}
      ensures Valid()
      ensures (path, line) in old(lineMeta) ==> lineMeta == old(lineMeta)
      ensures (path, line) !in old(lineMeta) ==> (path, line) in lineMeta && fresh(lineMeta[(path, line)])
      ensures forall k :: k in old(lineMeta) ==> k in lineMeta && lineMeta[k] == old(lineMeta[k])
      ensures lineMeta.Keys == old(lineMeta.Keys) + {(path, line)}
      ensures Indexed(lineMetaByPath, (path, line)) && lineMetaByPath[path][line] == lineMeta[(path, line)]
      ensures var r := lineMeta[(path, line)];
        && r.condition == condition && r.hitCondition == hitCondition && r.logMessage == logMessage
        && r.hit == (if extras.hit.Some? then extras.hit
                     else if (path, line) in old(lineMeta) && old(lineMeta[(path, line)].hit).Some?
                     then old(lineMeta[(path, line)].hit) else Some(0))
        && r.extras == (if (path, line) in old(lineMeta) then old(lineMeta[(path, line)].extras) else map[]) + extras.others
      ensures Table() == Step(old(Table()), Record(path, line, condition, hitCondition, logMessage, extras))
    {
      hide Consistent, WithNested, Rerecorded, BreakpointRecord.View, BreakpointRecord.Plain;
      var key := (path, line);
      var meta: BreakpointRecord;
      if key in lineMeta {
        meta := lineMeta[key];
        OthersDiffer(lineMeta, lineMetaByPath, key);
      } else {
        meta := new BreakpointRecord();
      }
      ConsistentAdd(lineMeta, lineMetaByPath, key, meta);
      Configure(meta, condition, hitCondition, logMessage, extras);
      Index(path, line, meta);
      OthersDiffer(lineMeta, lineMetaByPath, key);
      OneEntryChanged(old(Table()), Table(), key);
    }

    method Index(path: string, line: int, meta: BreakpointRecord)
      modifies this
      ensures lineMeta == old(lineMeta)[(path, line) := meta]
      ensures lineMetaByPath == WithNested(old(lineMetaByPath), (path, line), meta)
    {
      lineMeta := lineMeta[(path, line) := meta];
      if path !in lineMetaByPath {
        lineMetaByPath := lineMetaByPath[path := map[]];
      }
      lineMetaByPath := lineMetaByPath[path := lineMetaByPath[path][line := meta]];
    }

    /** The per-path index answers; otherwise the other index does, and its record is copied
        into the per-path index.  In a valid state there is never anything to copy. */
    method GetLineMeta(path: string, line: int) returns (meta: BreakpointRecord?)
      modifies this
      ensures lineMeta == old(lineMeta)
      ensures if Indexed(old(lineMetaByPath), (path, line)) then meta == old(lineMetaByPath)[path][line]
              else if (path, line) in lineMeta then meta == lineMeta[(path, line)]
              else meta == null
      ensures meta == null ==> lineMetaByPath == old(lineMetaByPath)
      ensures meta != null ==> lineMetaByPath == WithNested(old(lineMetaByPath), (path, line), meta)
      ensures old(Valid()) ==> lineMetaByPath == old(lineMetaByPath)
    {
      if path in lineMetaByPath && line in lineMetaByPath[path] {
        meta := lineMetaByPath[path][line];
        assert lineMetaByPath[path] == lineMetaByPath[path][line := meta];
        return;
      }
      meta := null;
      if (path, line) in lineMeta {
        var found := lineMeta[(path, line)];
        if path !in lineMetaByPath {
          lineMetaByPath := lineMetaByPath[path := map[]];
        }
        lineMetaByPath := lineMetaByPath[path := lineMetaByPath[path][line := found]];
        meta := found;
      }
    }

    method RemoveKeys(keys: set<(string, int)>)
      modifies this`lineMeta
      ensures lineMeta == old(lineMeta) - keys
    {
      var rest := keys;
      while rest != {}
        invariant rest <= keys
        invariant lineMeta == old(lineMeta) - (keys - rest)
        decreases rest
      {
        var key :| key in rest;
        lineMeta := lineMeta - {key};
        rest := rest - {key};
      }
    }

    method ClearLineMetaForFile(path: string)
      requires Valid()
      modifies this
      ensures Valid() && lineMetaByPath == old(lineMetaByPath) - {path}
      ensures lineMeta == map k | k in old(lineMeta) && k.0 != path :: old(lineMeta)[k]
      ensures Table() == Step(old(Table()), ClearFile(path))
    {
      hide Consistent;
      ConsistentClear(lineMeta, lineMetaByPath, path);
      if path in lineMetaByPath {
        var lines := lineMetaByPath[path].Keys;
        lineMetaByPath := lineMetaByPath - {path};
        RemoveKeys(KeysOf(lineMeta, path, lines));
      } else {
        RemoveKeys(set k | k in lineMeta && k.0 == path);
        assert lineMetaByPath == old(lineMetaByPath) - {path};
      }
    }

    method IncrementHitCount(path: string, line: int) returns (hits: int)
      requires Valid()
      modifies this, if (path, line) in lineMeta then {lineMeta[(path, line)]} else {}
      ensures Valid() && lineMeta == old(lineMeta) && lineMetaByPath == old(lineMetaByPath)
      ensures Table() == Step(old(Table()), Increment(path, line))
      ensures if (path, line) in lineMeta
              then Some(hits) == EntryOf(lineMeta[(path, line)]).hit == EntryOf(lineMetaByPath[path][line]).hit
              else hits == 0
    {
      hide Consistent;
      if (path, line) in lineMeta {
        OthersDiffer(lineMeta, lineMetaByPath, (path, line));
      } else {
        NotIndexed(lineMeta, lineMetaByPath, (path, line));
      }
      var meta := GetLineMeta(path, line);
      if meta == null {
        return 0;
      }
      hits := (if meta.hit.Some? then meta.hit.value else 0) + 1;
      meta.hit := Some(hits);
      assert forall k :: k in lineMeta && k != (path, line) ==> EntryOf(lineMeta[k]) == old(Table())[k];
      OneEntryChanged(old(Table()), Table(), (path, line));
    }

    /** A hit resolved on the shared record is seen through the manager: exactly the one entry
        changes, and only in its count. */
    method ResolveAt(path: string, line: int, frame: Option<Frame>) returns (r: Outcome)
      requires Valid() && (path, line) in lineMeta
      modifies lineMeta[(path, line)]
      ensures Valid() && lineMeta == old(lineMeta)
      ensures var m := old(lineMeta[(path, line)].View());
        && r == Decide(m.(hits := m.hits + 1), frame)
        && Table() == old(Table())[(path, line) := old(Table())[(path, line)].(hit := Some(m.hits + 1))]
      ensures var e := old(Table())[(path, line)];
        r.Stops() <==>
          && (e.hitCondition == None || e.hitCondition == Some("")
              || EvaluateHitCondition(e.hitCondition.value, (if e.hit.Some? then e.hit.value else 0) + 1))
          && (e.condition == None || e.condition == Some("")
              || (frame.Some? && frame.value.test(e.condition.value) == Some(true)))
          && (e.logMessage == None || e.logMessage == Some(""))
    {
      hide Consistent, Decide, EvaluateHitCondition, Outcome.Stops, BreakpointRecord.View, BreakpointRecord.Plain;
      PlainStops(lineMeta[(path, line)], Table()[(path, line)], frame);
      OthersDiffer(lineMeta, lineMetaByPath, (path, line));
      r := Resolve(lineMetaByPath[path][line], frame, true);
      OneEntryChanged(old(Table()), Table(), (path, line));
    }

    method ClearAll()
      requires Valid()
      modifies this
      ensures Valid() && lineMeta == map[] && lineMetaByPath == map[]
      ensures Table() == Step(old(Table()), ClearEverything)
    {
      lineMeta, lineMetaByPath := map[], map[];
    }
  }

  /** The dict updates of one recording. */
  method Configure(
      meta: BreakpointRecord, condition: Option<string>, hitCondition: Option<string>, logMessage: Option<string>,
      extras: Extras)
    modifies meta
    ensures EntryOf(meta) == Rerecorded(old(EntryOf(meta)), condition, hitCondition, logMessage, extras)
    ensures meta.condition == condition && meta.hitCondition == hitCondition && meta.logMessage == logMessage
    ensures meta.hit == if extras.hit.Some? then extras.hit else if old(meta.hit).Some? then old(meta.hit) else Some(0)
    ensures meta.extras == old(meta.extras) + extras.others
    ensures old(meta.Plain()) ==> meta.Plain()
    ensures old(EntryOf(meta)) == EMPTY ==>
      EntryOf(meta) == Rerecorded(NEW_ENTRY, condition, hitCondition, logMessage, extras)
  {
    if meta.hit.None? {
      meta.hit := Some(0);
    }
    meta.condition := condition;
    meta.hitCondition := hitCondition;
    meta.logMessage := logMessage;
    meta.extras := meta.extras + extras.others;
    if extras.hit.Some? {
      meta.hit := extras.hit;
    }
  }

  // ----- runs -----------------------------------------------------------------------

  datatype Op =
    | Record(path: string, line: int, condition: Option<string>, hitCondition: Option<string>,
             logMessage: Option<string>, extras: Extras)
    | Increment(path: string, line: int)
    | ClearFile(path: string)
    | ClearEverything

  /** The table that the methods above produce, one call at a time. */
  function Step(t: map<(string, int), Entry>, op: Op): map<(string, int), Entry> {
    match op
    case Record(path, line, condition, hitCondition, logMessage, extras) =>
      t[(path, line) := Rerecorded(if (path, line) in t then t[(path, line)] else NEW_ENTRY,
                                   condition, hitCondition, logMessage, extras)]
    case Increment(path, line) => if (path, line) in t then t[(path, line) := Counted(t[(path, line)])] else t
    case ClearFile(path) => map k | k in t && k.0 != path :: t[k]
    case ClearEverything => map[]
  }

  /** What a recording asked for is what the table holds, until that line is recorded again or
      cleared, whatever else happens meanwhile. */
  lemma {:induction false} ConfigurationIsLastRecorded(ops: seq<Op>, i: nat, path: string, line: int)
    requires i < |ops| && ops[i].Record? && ops[i].path == path && ops[i].line == line
    requires forall j :: i < j < |ops| ==>
      && !(ops[j].Record? && ops[j].path == path && ops[j].line == line)
      && !(ops[j].ClearFile? && ops[j].path == path) && !ops[j].ClearEverything?
    ensures (path, line) in Run(ops)
    ensures var e := Run(ops)[(path, line)];
      && e.condition == ops[i].condition && e.hitCondition == ops[i].hitCondition && e.logMessage == ops[i].logMessage
      && forall key :: key in ops[i].extras.others ==> key in e.extras && e.extras[key] == ops[i].extras.others[key]
  {
    var n := |ops| - 1;
    if i < n {
      assert forall j :: 0 <= j < n ==> ops[..n][j] == ops[j];
      ConfigurationIsLastRecorded(ops[..n], i, path, line);
    }
  }

  function Run(ops: seq<Op>): map<(string, int), Entry> {
    if ops == [] then map[] else Step(Run(ops[..|ops| - 1]), ops[|ops| - 1])
  }

  /** The hits counted for a line since its record was created, if it still exists. */
  function Hits(ops: seq<Op>, path: string, line: int): Option<nat> {
    if ops == [] then None
    else
      var before := Hits(ops[..|ops| - 1], path, line);
      match ops[|ops| - 1]
      case Record(p, l, _, _, _, _) => if (p, l) == (path, line) && before.None? then Some(0) else before
      case Increment(p, l) => if (p, l) == (path, line) && before.Some? then Some(before.value + 1) else before
      case ClearFile(p) => if p == path then None else before
      case ClearEverything => None
  }

  /** Over every run that never overrides a count, a line has a record exactly when it was
      recorded and not cleared since, and its count is the number of increments since then:
      recording again changes nothing about it. */
  lemma {:induction false} HitCountsSurviveRerecording(ops: seq<Op>, path: string, line: int)
    requires forall i :: 0 <= i < |ops| && ops[i].Record? ==> ops[i].extras.hit.None?
    ensures (path, line) in Run(ops) <==> Hits(ops, path, line).Some?
    ensures (path, line) in Run(ops) ==> Run(ops)[(path, line)].hit == Some(Hits(ops, path, line).value)
  {
    if ops != [] {
      var n := |ops| - 1;
      assert forall i :: 0 <= i < n ==> ops[..n][i] == ops[i];
      HitCountsSurviveRerecording(ops[..n], path, line);
      assert Run(ops) == Step(Run(ops[..n]), ops[n]);
      hide Run;
    }
  }
}
