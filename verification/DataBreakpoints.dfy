/**
  `DataBreakpointState`: change detection for watched variables by snapshots, proved equal to
  a definition over the whole history of frame visits.
 */
module DataBreakpoints {
  import opened Wrappers

  type FrameId = int

  /** A value as a visit meets it: the object, and what it contained at that moment. */
  datatype Seen<V, C> = Seen(ref: V, contents: C)

  /** A visit to a frame: the names watched then, the objects the local variables referred to,
      and what objects contained. */
  datatype Event<!V, C> =
    | Visit(frame: FrameId, watched: set<string>, locals: map<string, V>, contents: V -> C)
    | ClearSnapshots

  // ----- the definition by history --------------------------------------------------

  /** The watched values a visit records; a visit with nothing watched records nothing. */
  function Recorded<V, C>(e: Event<V, C>): map<string, Seen<V, C>>
    requires e.Visit?
  {
    map n | n in e.watched && n in e.locals :: Seen(e.locals[n], e.contents(e.locals[n]))
  }

  /** What the latest recorded visit to `frame` saw, if there was one. */
  function LastVisit<V, C>(history: seq<Event<V, C>>, frame: FrameId): Option<map<string, Seen<V, C>>> {
    if history == [] then None
    else
      var before := history[..|history| - 1];
      match history[|history| - 1]
      case ClearSnapshots => None
      case Visit(f, watched, _, _) =>
        if f == frame && watched != {} then Some(Recorded(history[|history| - 1])) else LastVisit(before, frame)
  }

  /** The latest value recorded for `name` in any frame. */
  function LastValue<V, C>(history: seq<Event<V, C>>, name: string): Option<Seen<V, C>> {
    if history == [] then None
    else
      match history[|history| - 1]
      case ClearSnapshots => None
      case Visit(_, watched, locals, contents) =>
        if name in watched && name in locals then Some(Seen(locals[name], contents(locals[name])))
        else LastValue(history[..|history| - 1], name)
  }

  /** The value a change is measured against: the frame's previous visit if the name was
      present there, else the latest value seen anywhere. */
  function Baseline<V, C>(history: seq<Event<V, C>>, frame: FrameId, name: string): Option<Seen<V, C>> {
    var visit := LastVisit(history, frame);
    if visit.Some? && name in visit.value then Some(visit.value[name]) else LastValue(history, name)
  }

  /** The object a name refers to now, and the one it is compared with, when they differ. */
  predicate Compared<V(==), C>(history: seq<Event<V, C>>, frame: FrameId, locals: map<string, V>, name: string) {
    && name in locals
    && Baseline(history, frame, name).Some?
    && locals[name] != Baseline(history, frame, name).value.ref
  }

  /** What comparing two contents gives: Unequal also where comparing raises TypeError or
      ValueError; its result may have no truth value, as for arrays. */
  datatype Comparison = Equal | Unequal | NoTruthValue

  /** Comparing what the two contain now. */
  function Compare<V, C>(
      eq: (C, C) -> Comparison, contents: V -> C, history: seq<Event<V, C>>, frame: FrameId,
      locals: map<string, V>, name: string): Comparison
    requires name in locals && Baseline(history, frame, name).Some?
  {
    eq(contents(locals[name]), contents(Baseline(history, frame, name).value.ref))
  }

  /** What the code reports: another object than the baseline's, and now not an equal one. */
  predicate Changed<V(==), C>(
      eq: (C, C) -> Comparison, contents: V -> C, history: seq<Event<V, C>>, frame: FrameId,
      locals: map<string, V>, name: string) {
    Compared(history, frame, locals, name) && Compare(eq, contents, history, frame, locals, name) == Unequal
  }

  /** The comparison with another object has no truth value: asking for it raises. */
  predicate Raises<V(==), C>(
      eq: (C, C) -> Comparison, contents: V -> C, history: seq<Event<V, C>>, frame: FrameId,
      locals: map<string, V>, name: string) {
    Compared(history, frame, locals, name) && Compare(eq, contents, history, frame, locals, name) == NoTruthValue
  }

  /** What a watch is for: the value is not the one seen before, going by what that contained
      when it was seen. */
  predicate ChangedSince<V, C>(
      eq: (C, C) -> Comparison, contents: V -> C, history: seq<Event<V, C>>, frame: FrameId,
      locals: map<string, V>, name: string) {
    && name in locals
    && Baseline(history, frame, name).Some?
    && eq(contents(locals[name]), Baseline(history, frame, name).value.contents) == Unequal
  }

  // ----- the object -----------------------------------------------------------------

  /** The access type of one piece of watch metadata, normalised. */
  datatype Access = Read | Write | ReadWrite

  /** The objects of recorded values: the snapshots keep no more than these. */
  function Refs<V, C>(seen: map<string, Seen<V, C>>): map<string, V> {
    map n | n in seen :: seen[n].ref
  }

  class DataBreakpointState<V(==, !new), C(!new)> {
    var watchNames: set<string>
    var readWatchNames: set<string>
    var lastValuesByFrame: map<FrameId, map<string, V>>
    var globalValues: map<string, V>
    /** Everything that has been snapshotted or cleared so far. */
    ghost var history: seq<Event<V, C>>

    /** The snapshots are the objects that the history says. */
    ghost predicate Valid()
      reads this
    {
      && (forall f :: f in lastValuesByFrame <==> LastVisit(history, f).Some?)
      && (forall f :: f in lastValuesByFrame ==> Refs(LastVisit(history, f).value) == lastValuesByFrame[f])
      && (forall n :: n in globalValues <==> LastValue(history, n).Some?)
      && (forall n :: n in globalValues ==> LastValue(history, n).value.ref == globalValues[n])
    }

    constructor ()
      ensures Valid() && history == [] && watchNames == {}
    {
      watchNames, readWatchNames := {}, {};
      lastValuesByFrame, globalValues := map[], map[];
      history := [];
    }

    /** Names are watched for writes by their metadata, or when they have none; names that are
        not watched at all and empty names are ignored. */
    method RegisterWatches(names: seq<string>, metas: seq<(string, Access)>)
      requires Valid()
      modifies this
      ensures Valid() && history == old(history)
      ensures lastValuesByFrame == old(lastValuesByFrame) && globalValues == old(globalValues)
      ensures forall n :: n in watchNames <==>
        n in names && n != "" && ((forall m :: m in metas ==> m.0 != n) || exists m :: m in metas && m.0 == n && m.1 != Read)
      ensures forall n :: n in readWatchNames <==>
        n in names && n != "" && exists m :: m in metas && m.0 == n && m.1 != Write
    {
      var asked := set n | n in names && n != "";
      watchNames := asked;
      readWatchNames := {};
      if metas != [] {
        var withMeta, write, read := {}, {}, {};
        var i := 0;
        while i < |metas|
          invariant 0 <= i <= |metas|
          invariant forall n :: n in withMeta <==> n in asked && exists m :: m in metas[..i] && m.0 == n
          invariant forall n :: n in write <==> n in asked && exists m :: m in metas[..i] && m.0 == n && m.1 != Read
          invariant forall n :: n in read <==> n in asked && exists m :: m in metas[..i] && m.0 == n && m.1 != Write
        {
          var (name, access) := metas[i];
          if name in asked {
            withMeta := withMeta + {name};
            if access != Read {
              write := write + {name};
            }
            if access != Write {
              read := read + {name};
            }
          }
          assert forall m :: m in metas[..i + 1] <==> m in metas[..i] || m == metas[i];
          i := i + 1;
        }
        assert metas[..i] == metas;
        watchNames := write + (asked - withMeta);
        readWatchNames := read;
      }
    }

    /** The names reported are exactly the watched names that changed, each once; or the check
        raises, exactly when some comparison has no truth value. */
    method CheckForChanges(eq: (C, C) -> Comparison, contents: V -> C, frame: FrameId, locals: map<string, V>)
      returns (raised: bool, changed: seq<string>)
      requires Valid()
      ensures raised <==> exists n :: n in watchNames && Raises(eq, contents, history, frame, locals, n)
      ensures !raised ==>
        forall n :: n in changed <==> n in watchNames && Changed(eq, contents, history, frame, locals, n)
      ensures forall i, j :: 0 <= i < j < |changed| ==> changed[i] != changed[j]
    {
      raised, changed := false, [];
      var rest := watchNames;
      while rest != {}
        invariant rest <= watchNames
        invariant forall n :: n in watchNames && n !in rest ==> !Raises(eq, contents, history, frame, locals, n)
        invariant forall n :: n in changed <==>
          n in watchNames && n !in rest && Changed(eq, contents, history, frame, locals, n)
        invariant forall i, j :: 0 <= i < j < |changed| ==> changed[i] != changed[j]
        decreases rest
      {
        hide Baseline;
        var name :| name in rest;
        rest := rest - {name};
        BaselineFromSnapshots(frame, name);
        if name in locals {
          var now := locals[name];
          var before: Option<V> := None;
          if frame in lastValuesByFrame && name in lastValuesByFrame[frame] {
            before := Some(lastValuesByFrame[frame][name]);
          } else if name in globalValues {
            before := Some(globalValues[name]);
          }
          if before.Some? && before.value != now {
            var equal := eq(contents(now), contents(before.value));
            if equal == NoTruthValue {
              assert Raises(eq, contents, history, frame, locals, name);
              raised := true;
              return;
            }
            if equal == Unequal {
              assert forall n :: n in changed + [name] <==> n in changed || n == name;
              changed := changed + [name];
            }
          }
        }
      }
    }

    lemma BaselineFromSnapshots(frame: FrameId, name: string)
      requires Valid()
      ensures var before := Baseline(history, frame, name);
        (if before.Some? then Some(before.value.ref) else None) ==
        if frame in lastValuesByFrame && name in lastValuesByFrame[frame] then Some(lastValuesByFrame[frame][name])
        else if name in globalValues then Some(globalValues[name])
        else None
    {
      if frame in lastValuesByFrame {
        assert name in lastValuesByFrame[frame] <==> name in Refs(LastVisit(history, frame).value);
      }
    }

    /** `contents` is what objects contain at the visit; only the references are kept. */
    method UpdateSnapshots(ghost contents: V -> C, frame: FrameId, locals: map<string, V>)
      requires Valid()
      modifies this
      ensures Valid() && history == old(history) + [Visit(frame, watchNames, locals, contents)]
      ensures watchNames == old(watchNames) && readWatchNames == old(readWatchNames)
    {
      ghost var e := Visit(frame, watchNames, locals, contents);
      ghost var before := history;
      history := history + [e];
      assert history[..|history| - 1] == before;
      if watchNames == {} {
        return;
      }
      var seen := map n | n in watchNames && n in locals :: locals[n];
      lastValuesByFrame := lastValuesByFrame[frame := seen];
      globalValues := globalValues + seen;
      assert seen == Refs(Recorded(e));
    }

    /** A visit, as `user_line` makes it: check, then update.  A watched name is reported
        exactly when the definition over the history of earlier visits says it changed; a check
        that raises leaves the snapshots alone. */
    method VisitFrame(eq: (C, C) -> Comparison, contents: V -> C, frame: FrameId, locals: map<string, V>)
      returns (raised: bool, changed: seq<string>)
      requires Valid()
      modifies this
      ensures Valid() && watchNames == old(watchNames)
      ensures raised <==> exists n :: n in watchNames && Raises(eq, contents, old(history), frame, locals, n)
      ensures if raised then history == old(history) && lastValuesByFrame == old(lastValuesByFrame)
                             && globalValues == old(globalValues)
              else history == old(history) + [Visit(frame, watchNames, locals, contents)]
      ensures !raised ==>
        forall n :: n in changed <==> n in watchNames && Changed(eq, contents, old(history), frame, locals, n)
    {
      raised, changed := CheckForChanges(eq, contents, frame, locals);
      if !raised {
        UpdateSnapshots(contents, frame, locals);
      }
    }

    method ClearValueSnapshots()
      requires Valid()
      modifies this
      ensures Valid() && history == old(history) + [ClearSnapshots]
      ensures lastValuesByFrame == map[] && globalValues == map[]
      ensures watchNames == old(watchNames) && readWatchNames == old(readWatchNames)
    {
      lastValuesByFrame, globalValues := map[], map[];
      history := history + [ClearSnapshots];
    }
  }

  // ----- what the definition means --------------------------------------------------

  ghost predicate Equivalence<C(!new)>(eq: (C, C) -> Comparison) {
    && (forall a, b :: eq(a, b) != NoTruthValue)
    && (forall a :: eq(a, a) == Equal)
    && (forall a, b :: eq(a, b) == Equal ==> eq(b, a) == Equal)
    && (forall a, b, c :: eq(a, b) == Equal && eq(b, c) == Equal ==> eq(a, c) == Equal)
  }

  /** The baseline object does not contain any more what it contained when it was seen. */
  predicate Mutated<V, C>(eq: (C, C) -> Comparison, contents: V -> C, before: Seen<V, C>) {
    eq(contents(before.ref), before.contents) == Unequal
  }

  /** The report is right, going by contents, exactly when the baseline object has not been
      mutated since it was seen, or the value now equals neither what it contained nor what it
      contains. */
  lemma ReportIsRightIff<V, C(!new)>(
      eq: (C, C) -> Comparison, contents: V -> C, history: seq<Event<V, C>>, frame: FrameId,
      locals: map<string, V>, name: string)
    requires Equivalence(eq) && name in locals && Baseline(history, frame, name).Some?
    ensures var before := Baseline(history, frame, name).value;
      var now := contents(locals[name]);
      (Changed(eq, contents, history, frame, locals, name) <==>
       ChangedSince(eq, contents, history, frame, locals, name)) <==>
      (!Mutated(eq, contents, before) || (eq(now, before.contents) == eq(now, contents(before.ref)) == Unequal))
  {
    var now, before := contents(locals[name]), Baseline(history, frame, name).value;
    var was, nowThere := before.contents, contents(before.ref);
    assert NoTruthValue !in {eq(nowThere, was), eq(now, was), eq(now, nowThere)};
    assert eq(nowThere, nowThere) == Equal;
    assert Changed(eq, contents, history, frame, locals, name) <==> eq(now, nowThere) == Unequal;
    assert ChangedSince(eq, contents, history, frame, locals, name) <==> eq(now, was) == Unequal;
    assert Mutated(eq, contents, before) <==> eq(nowThere, was) == Unequal;
    assert eq(now, nowThere) == Equal && eq(nowThere, was) == Equal ==> eq(now, was) == Equal;
    assert eq(nowThere, was) == Equal ==> eq(was, nowThere) == Equal;
    assert eq(now, was) == Equal && eq(was, nowThere) == Equal ==> eq(now, nowThere) == Equal;
    assert eq(now, nowThere) == Equal && eq(now, was) == Equal ==> eq(nowThere, was) == Equal by {
      assert eq(now, nowThere) == Equal ==> eq(nowThere, now) == Equal;
    }
  }

  /** An object that is still there but was changed in place is never reported, although it
      changed exactly when it was mutated. */
  lemma MutationIsNotReported<V, C(!new)>(
      eq: (C, C) -> Comparison, contents: V -> C, history: seq<Event<V, C>>, frame: FrameId,
      locals: map<string, V>, name: string)
    requires name in locals && Baseline(history, frame, name).Some?
    requires locals[name] == Baseline(history, frame, name).value.ref
    ensures !Changed(eq, contents, history, frame, locals, name)
    ensures ChangedSince(eq, contents, history, frame, locals, name) <==>
            Mutated(eq, contents, Baseline(history, frame, name).value)
  {
  }

  /** A frame that is visited twice in a row with the same locals reports nothing. */
  lemma StableFrameIsQuiet<V, C(!new)>(
      eq: (C, C) -> Comparison, earlier: V -> C, now: V -> C, history: seq<Event<V, C>>, frame: FrameId,
      watched: set<string>, locals: map<string, V>, n: string)
    requires n in watched
    ensures !Changed(eq, now, history + [Visit(frame, watched, locals, earlier)], frame, locals, n)
  {
    var e := Visit(frame, watched, locals, earlier);
    assert (history + [e])[..|history|] == history;
  }

  /** A visit to another frame cannot hide a change in this one: it leaves the baseline of
      every name present at this frame's previous visit as it was. */
  lemma OtherFramesDoNotInterfere<V, C(!new)>(history: seq<Event<V, C>>, frame: FrameId, e: Event<V, C>, n: string)
    requires e.Visit? && e.frame != frame
    requires LastVisit(history, frame).Some? && n in LastVisit(history, frame).value
    ensures Baseline(history + [e], frame, n) == Baseline(history, frame, n)
  {
    assert (history + [e])[..|history|] == history;
  }

  /** Whatever visits to other frames come between, a name present at this frame's previous visit
      is reported exactly when it now refers to another object, which is now unequal. */
  lemma {:induction false} PreviousVisitDecides<V, C(!new)>(
      eq: (C, C) -> Comparison, earlier: V -> C, now: V -> C, history: seq<Event<V, C>>, others: seq<Event<V, C>>,
      frame: FrameId, watched: set<string>, before: map<string, V>, locals: map<string, V>, n: string)
    requires n in watched && n in before && forall i :: 0 <= i < |others| ==> others[i].Visit? && others[i].frame != frame
    ensures var all := history + [Visit(frame, watched, before, earlier)] + others;
      && Baseline(all, frame, n) == Some(Seen(before[n], earlier(before[n])))
      && (Changed(eq, now, all, frame, locals, n) <==>
          n in locals && locals[n] != before[n] && eq(now(locals[n]), now(before[n])) == Unequal)
  {
    var first := history + [Visit(frame, watched, before, earlier)];
    if others == [] {
      assert first + others == first && first[..|history|] == history;
    } else {
      var k := |others| - 1;
      PreviousVisitDecides(eq, earlier, now, history, others[..k], frame, watched, before, locals, n);
      assert first + others == (first + others[..k]) + [others[k]];
      assert LastVisit(first + others[..k], frame).Some? && n in LastVisit(first + others[..k], frame).value by {
        LastVisitAmongOthers(history, others[..k], frame, watched, before, earlier);
      }
      OtherFramesDoNotInterfere(first + others[..k], frame, others[k], n);
    }
  }

  lemma {:induction false} LastVisitAmongOthers<V, C(!new)>(
      history: seq<Event<V, C>>, others: seq<Event<V, C>>, frame: FrameId,
      watched: set<string>, locals: map<string, V>, contents: V -> C)
    requires watched != {} && forall i :: 0 <= i < |others| ==> others[i].Visit? && others[i].frame != frame
    ensures LastVisit(history + [Visit(frame, watched, locals, contents)] + others, frame) ==
            Some(Recorded(Visit(frame, watched, locals, contents)))
  {
    var first := history + [Visit(frame, watched, locals, contents)];
    if others == [] {
      assert first + others == first && first[..|history|] == history;
    } else {
      var k := |others| - 1;
      LastVisitAmongOthers(history, others[..k], frame, watched, locals, contents);
      assert (first + others)[..|first + others| - 1] == first + others[..k];
    }
  }

  /** A name absent from this frame's previous visit is compared with what it was at the latest
      visit to any frame that had it. */
  lemma NewNameUsesLatest<V, C(!new)>(
      history: seq<Event<V, C>>, frame: FrameId, other: FrameId, watched: set<string>, locals: map<string, V>,
      contents: V -> C, n: string)
    requires n in watched && n in locals && other != frame
    requires LastVisit(history, frame).Some? ==> n !in LastVisit(history, frame).value
    ensures Baseline(history + [Visit(other, watched, locals, contents)], frame, n) ==
            Some(Seen(locals[n], contents(locals[n])))
  {
    var all := history + [Visit(other, watched, locals, contents)];
    assert all[..|history|] == history;
  }

  /** After the snapshots are cleared nothing is reported until it has been seen again. */
  lemma ClearedIsQuiet<V, C(!new)>(
      eq: (C, C) -> Comparison, contents: V -> C, history: seq<Event<V, C>>, frame: FrameId, locals: map<string, V>, n: string)
    ensures Baseline(history + [ClearSnapshots], frame, n) == None
    ensures !Changed(eq, contents, history + [ClearSnapshots], frame, locals, n)
  {
  }

  /** A name new to a frame is compared with its latest value in any frame, and not reported
      the first time it is seen anywhere. */
  lemma FirstSightIsQuiet<V, C(!new)>(
      eq: (C, C) -> Comparison, contents: V -> C, history: seq<Event<V, C>>, frame: FrameId, locals: map<string, V>, n: string)
    requires LastValue(history, n).None?
    ensures !Changed(eq, contents, history, frame, locals, n)
  {
    FrameValuesAreValues(history, frame, n);
  }

  lemma {:induction false} FrameValuesAreValues<V, C(!new)>(history: seq<Event<V, C>>, frame: FrameId, n: string)
    ensures LastVisit(history, frame).Some? && n in LastVisit(history, frame).value ==> LastValue(history, n).Some?
  {
    if history != [] {
      FrameValuesAreValues(history[..|history| - 1], frame, n);
    }
  }
}
