/**
  The record (a Python dict) that line breakpoints share, and `BreakpointResolver.resolve`,
  which decides what a hit does and writes the hit count back.
 */
module BreakpointResolver {
  import opened Wrappers
  import opened HitConditions
  import LogTemplate

  /** A breakpoint record; None is an absent key or a None value. */
  class BreakpointRecord {
    var condition: Option<string>
    var hitCondition: Option<string>
    var hitConditionSnake: Option<string>
    var logMessage: Option<string>
    var logMessageSnake: Option<string>
    var hit: Option<int>
    var hitCount: Option<int>
    var extras: map<string, string>

    constructor ()
      ensures condition == hitCondition == hitConditionSnake == logMessage == logMessageSnake == None
      ensures hit == hitCount == None && extras == map[]
      ensures Plain()
    {
      condition, hitCondition, hitConditionSnake := None, None, None;
      logMessage, logMessageSnake := None, None;
      hit, hitCount, extras := None, None, map[];
    }

    /** Without the alternative keys that other producers of records use. */
    predicate Plain()
      reads this
    {
      hitConditionSnake == None && logMessageSnake == None && hitCount == None
    }

    function View(): Meta
      reads this
    {
      Meta(
        condition, Or(hitCondition, hitConditionSnake), Or(logMessage, logMessageSnake),
        if hit.Some? && hit.value != 0 then hit.value else if hitCount.Some? then hitCount.value else 0)
    }
  }

  datatype Meta = Meta(condition: Option<string>, hitCondition: Option<string>, logMessage: Option<string>, hits: int)

  predicate Truthy(s: Option<string>) {
    s.Some? && s.value != ""
  }

  function Or(a: Option<string>, b: Option<string>): Option<string> {
    if Truthy(a) then a else b
  }

  /** How expressions evaluate in a frame; None is a raised exception. */
  datatype Frame = Frame(test: string -> Option<bool>, eval: string -> Option<string>)

  datatype Reason = NoConditions | HitConditionNotMet | ConditionNotMet | Logpoint | ConditionsMet

  datatype Outcome = Outcome(reason: Reason, output: Option<string>)
  {
    predicate Stops() {
      reason == NoConditions || reason == ConditionsMet
    }
  }

  predicate TestCondition(condition: string, frame: Option<Frame>) {
    frame.Some? && frame.value.test(condition) == Some(true)
  }

  function Render(template: string, frame: Option<Frame>): string {
    if frame.None? then template else LogTemplate.Format(template, frame.value.eval)
  }

  /** The decision once the hit is counted. */
  function Decide(m: Meta, frame: Option<Frame>): Outcome {
    if Truthy(m.hitCondition) && !EvaluateHitCondition(m.hitCondition.value, m.hits) then Outcome(HitConditionNotMet, None)
    else if Truthy(m.condition) && !TestCondition(m.condition.value, frame) then Outcome(ConditionNotMet, None)
    else if Truthy(m.logMessage) then Outcome(Logpoint, Some(Render(m.logMessage.value, frame)))
    else Outcome(ConditionsMet, None)
  }

  /** Execution stops exactly when the hit condition and the condition both pass and there is
      no log message; a logpoint outputs exactly in those cases where there is one. */
  lemma StopsExactlyWhenAllPass(m: Meta, frame: Option<Frame>)
    ensures var r := Decide(m, frame);
      var counted := m.hitCondition == None || m.hitCondition == Some("")
                     || EvaluateHitCondition(m.hitCondition.value, m.hits);
      var met := m.condition == None || m.condition == Some("")
                 || (frame.Some? && frame.value.test(m.condition.value) == Some(true));
      var silent := m.logMessage == None || m.logMessage == Some("");
      && (r.Stops() <==> counted && met && silent)
      && (r.output.Some? <==> counted && met && !silent)
      && (r.output.Some? ==>
          r.output.value == if frame.None? then m.logMessage.value
                            else LogTemplate.Format(m.logMessage.value, frame.value.eval))
      && (r.reason == HitConditionNotMet <==> !counted)
      && (r.reason == ConditionNotMet <==> counted && !met)
  {
    hide EvaluateHitCondition;
  }

  /** How a record's keys are read: the DAP spelling unless it is absent or empty, and the
      current count unless it is absent or 0. */
  lemma KeysRead(r: BreakpointRecord)
    ensures r.View().condition == r.condition
    ensures r.View().hitCondition ==
            if r.hitCondition == None || r.hitCondition == Some("") then r.hitConditionSnake else r.hitCondition
    ensures r.View().logMessage ==
            if r.logMessage == None || r.logMessage == Some("") then r.logMessageSnake else r.logMessage
    ensures r.hit.Some? && r.hit.value != 0 ==> r.View().hits == r.hit.value
    ensures r.hit == None || r.hit == Some(0) ==> r.View().hits == if r.hitCount.Some? then r.hitCount.value else 0
  {
  }

  /** `record` None stands for a breakpoint without metadata. */
  method Resolve(record: BreakpointRecord?, frame: Option<Frame>, autoIncrementHit: bool) returns (r: Outcome)
    modifies if record == null then {} else {record}
    ensures record == null ==> r == Outcome(NoConditions, None)
    ensures record != null && old(record.Plain()) ==> record.Plain()
    ensures record != null ==>
      && r == Decide(old(record.View()).(hits := old(record.View().hits) + if autoIncrementHit then 1 else 0), frame)
      && record.hit == (if autoIncrementHit then Some(old(record.View().hits) + 1) else old(record.hit))
      && record.condition == old(record.condition) && record.hitCondition == old(record.hitCondition)
      && record.hitConditionSnake == old(record.hitConditionSnake)
      && record.logMessage == old(record.logMessage) && record.logMessageSnake == old(record.logMessageSnake)
      && record.hitCount == old(record.hitCount) && record.extras == old(record.extras)
  {
    if record == null {
      return Outcome(NoConditions, None);
    }
    var meta := record.View();
    if autoIncrementHit {
      meta := meta.(hits := meta.hits + 1);
      record.hit := Some(meta.hits);
    }
    if Truthy(meta.hitCondition) && !EvaluateHitCondition(meta.hitCondition.value, meta.hits) {
      return Outcome(HitConditionNotMet, None);
    }
    if Truthy(meta.condition) {
      var met := TestCondition(meta.condition.value, frame);
      if !met {
        return Outcome(ConditionNotMet, None);
      }
    }
    if Truthy(meta.logMessage) {
      return Outcome(Logpoint, Some(Render(meta.logMessage.value, frame)));
    }
    return Outcome(ConditionsMet, None);
  }

  function CountPassed(outcomes: seq<Outcome>): nat {
    if outcomes == [] then 0
    else
      var n := |outcomes| - 1;
      CountPassed(outcomes[..n]) + if outcomes[n].reason != HitConditionNotMet then 1 else 0
  }

  lemma NoOutcomes()
    ensures CountPassed([]) == 0
  {
  }

  lemma OneMoreOutcome(outcomes: seq<Outcome>, r: Outcome)
    ensures CountPassed(outcomes + [r]) == CountPassed(outcomes) + if r.reason != HitConditionNotMet then 1 else 0
  {
    assert (outcomes + [r])[..|outcomes|] == outcomes;
  }

  lemma HitConditionDecides(m: Meta, frame: Option<Frame>)
    ensures Decide(m, frame).reason != HitConditionNotMet <==>
            (Truthy(m.hitCondition) ==> Parse(m.hitCondition.value).Holds(m.hits))
  {
    hide Parse, Render;
  }

  /** Successive hits on the same record: the hit condition passes as often as it should from
      the count the record held, and the record's count grows by the number of calls.  Counts
      start at 0 or more: a count that reached 0 would read as absent. */
  method ResolveRepeatedly(record: BreakpointRecord, frames: seq<Option<Frame>>) returns (outcomes: seq<Outcome>)
    requires record.View().hits >= 0
    modifies record
    ensures |outcomes| == |frames|
    ensures forall i :: 0 <= i < |frames| ==>
      outcomes[i] == Decide(old(record.View()).(hits := old(record.View().hits) + i + 1), frames[i])
    ensures CountPassed(outcomes) ==
      if Truthy(old(record.View().hitCondition))
      then Passes(Parse(old(record.View().hitCondition.value)), old(record.View().hits), |frames|)
      else |frames|
    ensures frames != [] ==> record.hit == Some(old(record.View().hits) + |frames|)
  {
    hide Decide, Parse, CountPassed;
    ghost var m := record.View();
    outcomes := [];
    assert CountPassed([]) == 0 by { NoOutcomes(); }
    var i := 0;
    while i < |frames|
      invariant 0 <= i <= |frames| && |outcomes| == i
      invariant record.View() == m.(hits := m.hits + i)
      invariant i > 0 ==> record.hit == Some(m.hits + i)
      invariant forall j :: 0 <= j < i ==> outcomes[j] == Decide(m.(hits := m.hits + j + 1), frames[j])
      invariant CountPassed(outcomes) ==
        if Truthy(m.hitCondition) then Passes(Parse(m.hitCondition.value), m.hits, i) else i
    {
      var r := Resolve(record, frames[i], true);
      HitConditionDecides(m.(hits := m.hits + i + 1), frames[i]);
      OneMoreOutcome(outcomes, r);
      outcomes := outcomes + [r];
      i := i + 1;
    }
  }

  /** From count h, n successive hits pass a written `%k` exactly as often as there are
      multiples of k in reach, `==k` at most once, and `>=k` on the rest of the run. */
  lemma HitConditionsCountCorrectly(k: nat, h: int, n: nat)
    ensures k > 0 ==> Passes(Parse("%" + Decimal(k)), h, n) == (h + n) / k - h / k
    ensures Passes(Parse("==" + Decimal(k)), h, n) == Passes(Parse(Decimal(k)), h, n) == if h < k <= h + n then 1 else 0
    ensures Passes(Parse(">=" + Decimal(k)), h, n) == Max(0, h + n - Max(h, k - 1))
  {
    hide Parse, Decimal;
    CoreReads("%", "", k);
    CoreReads("==", "", k);
    CoreReads(">=", "", k);
    NumberReads(k);
    assert forall op: string :: op + "" == op;
    if k > 0 {
      EveryCounts(k, h, n);
    }
    ExactlyCounts(k, h, n);
    AtLeastCounts(k, h, n);
  }
}
