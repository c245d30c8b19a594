/**
  `FuncCodeInfoCache`: three maps (records, recency order, timestamps) that are not kept
  identical, proved to behave like a time-to-live map with LRU survival.
 */
module FuncCodeInfoCache {
  import opened Wrappers
  import opened Recency

  /** `info` is None where the caller stored Python's None. */
  datatype Record<+V> = Record(info: Option<V>, timestamp: int)

  datatype Cache<K, V> = Cache(
    weakMap: map<K, Record<V>>, lruOrder: seq<K>, timestamps: map<K, int>,
    maxSize: int, ttl: int, enabled: bool)

  // ----- operations -----------------------------------------------------------------

  predicate Fresh<K, V>(c: Cache<K, V>, k: K, now: int) {
    k in c.weakMap && now - c.weakMap[k].timestamp < c.ttl
  }

  function DoGet<K(==), V>(c: Cache<K, V>, k: K, now: int): (Cache<K, V>, Option<V>) {
    if !c.enabled || k !in c.weakMap then (c, None)
    else if Fresh(c, k, now) then
      (if k in c.lruOrder then c.(lruOrder := MoveToEnd(c.lruOrder, k)) else c, c.weakMap[k].info)
    else (c.(lruOrder := Without(c.lruOrder, k), weakMap := c.weakMap - {k}), None)
  }

  function Evict<K(==), V>(c: Cache<K, V>): Cache<K, V>
    decreases |c.lruOrder|
  {
    if |c.lruOrder| > c.maxSize && c.lruOrder != [] then
      Evict(c.(lruOrder := c.lruOrder[1..], weakMap := c.weakMap - {c.lruOrder[0]}))
    else c
  }

  function Insert<K(==), V>(c: Cache<K, V>, k: K, info: Option<V>, now: int): Cache<K, V> {
    c.(weakMap := c.weakMap[k := Record(info, now)],
       timestamps := c.timestamps[k := now],
       lruOrder := MoveToEnd(c.lruOrder, k))
  }

  function DoSet<K(==), V>(c: Cache<K, V>, k: K, info: Option<V>, now: int): Cache<K, V> {
    if !c.enabled then c else Evict(Insert(c, k, info, now))
  }

  function DoRemove<K(==), V>(c: Cache<K, V>, k: K): Cache<K, V> {
    if k !in c.weakMap then c
    else c.(weakMap := c.weakMap - {k}, lruOrder := Without(c.lruOrder, k), timestamps := c.timestamps - {k})
  }

  function DoClear<K(==), V>(c: Cache<K, V>): Cache<K, V> {
    c.(weakMap := map[], lruOrder := [])
  }

  function Expired<K, V>(c: Cache<K, V>, now: int): set<K> {
    set k | k in c.timestamps && now - c.timestamps[k] > c.ttl
  }

  function DoCleanup<K(==), V>(c: Cache<K, V>, now: int): Cache<K, V> {
    c.(weakMap := c.weakMap - Expired(c, now), timestamps := c.timestamps - Expired(c, now))
  }

  /** `set_cache_enabled`: turning caching off clears. */
  function DoEnable<K(==), V>(c: Cache<K, V>, on: bool): Cache<K, V> {
    if on then c.(enabled := true) else DoClear(c).(enabled := false)
  }

  datatype Op<K, V> =
    | Get(k: K, now: int)
    | Set(k: K, info: Option<V>, now: int)
    | Remove(k: K)
    | Clear
    | Cleanup(now: int)
    | Enable(on: bool)

  function Step<K(==), V>(c: Cache<K, V>, op: Op<K, V>): Cache<K, V> {
    match op
    case Get(k, now) => DoGet(c, k, now).0
    case Set(k, info, now) => DoSet(c, k, info, now)
    case Remove(k) => DoRemove(c, k)
    case Clear => DoClear(c)
    case Cleanup(now) => DoCleanup(c, now)
    case Enable(on) => DoEnable(c, on)
  }

  function Run<K(==), V>(maxSize: int, ttl: int, ops: seq<Op<K, V>>): Cache<K, V> {
    if ops == [] then Cache(map[], [], map[], maxSize, ttl, true)
    else Step(Run(maxSize, ttl, ops[..|ops| - 1]), ops[|ops| - 1])
  }

  // ----- what the history says ------------------------------------------------------

  /** The record last set for `k`, unless removed or cleared since. */
  function LastSet<K(==), V>(maxSize: int, ttl: int, ops: seq<Op<K, V>>, k: K): Option<Record<V>> {
    if ops == [] then None
    else
      var before := ops[..|ops| - 1];
      match ops[|ops| - 1]
      case Set(j, info, now) =>
        if j == k && Run(maxSize, ttl, before).enabled then Some(Record(info, now))
        else LastSet(maxSize, ttl, before, k)
      case Remove(j) => if j == k then None else LastSet(maxSize, ttl, before, k)
      case Clear => None
      case Enable(on) => if on then LastSet(maxSize, ttl, before, k) else None
      case _ => LastSet(maxSize, ttl, before, k)
  }

  /** The key that an operation sets or hits. */
  function Touched<K(==), V>(c: Cache<K, V>, op: Op<K, V>): Option<K> {
    match op
    case Get(k, now) => if c.enabled && Fresh(c, k, now) then Some(k) else None
    case Set(k, _, _) => if c.enabled then Some(k) else None
    case _ => None
  }

  /** The other keys set or hit since `k` was last set or hit. */
  function OthersSince<K(==), V>(maxSize: int, ttl: int, ops: seq<Op<K, V>>, k: K): set<K> {
    if ops == [] then {}
    else
      var before := ops[..|ops| - 1];
      match Touched(Run(maxSize, ttl, before), ops[|ops| - 1])
      case None => OthersSince(maxSize, ttl, before, k)
      case Some(j) => if j == k then {} else OthersSince(maxSize, ttl, before, k) + {j}
  }

  function TimeOf<K, V>(op: Op<K, V>): Option<int> {
    match op
    case Get(_, now) => Some(now)
    case Set(_, _, now) => Some(now)
    case Cleanup(now) => Some(now)
    case _ => None
  }

  /** No operation happens after `now`. */
  predicate Until<K, V>(ops: seq<Op<K, V>>, now: int) {
    forall i :: 0 <= i < |ops| && TimeOf(ops[i]).Some? ==> TimeOf(ops[i]).value <= now
  }

  // ----- invariants of every run ----------------------------------------------------

  ghost predicate Shaped<K(!new), V>(c: Cache<K, V>) {
    && Distinct(c.lruOrder)
    && (forall k :: k in c.weakMap ==>
          k in c.lruOrder && k in c.timestamps && c.timestamps[k] == c.weakMap[k].timestamp)
  }

  predicate Bounded<K, V>(c: Cache<K, V>) {
    |c.lruOrder| <= if c.maxSize < 0 then 0 else c.maxSize
  }

  /** What an operation may do to the recency order, whatever else it does. */
  ghost predicate OrderKept<K(!new), V>(c: Cache<K, V>, d: Cache<K, V>, touched: Option<K>) {
    forall x, y :: Before(d.lruOrder, x, y) ==>
      (Before(c.lruOrder, x, y) && touched != Some(x)) || (touched == Some(y) && x != y)
  }

  /** The records an operation leaves: those it sets, and old ones it does not remove. */
  ghost predicate RecordsKept<K(!new), V>(c: Cache<K, V>, d: Cache<K, V>, op: Op<K, V>) {
    forall k :: k in d.weakMap ==>
      if op.Set? && op.k == k && c.enabled then d.weakMap[k] == Record(op.info, op.now)
      else k in c.weakMap && d.weakMap[k] == c.weakMap[k] && !Forgets(op, k)
  }

  /** The operation drops `k` whatever its age. */
  predicate Forgets<K(==), V>(op: Op<K, V>, k: K) {
    (op.Remove? && op.k == k) || op.Clear? || (op.Enable? && !op.on)
  }

  lemma {:induction false} EvictFacts<K(!new), V>(c: Cache<K, V>)
    requires Shaped(c)
    ensures var d := Evict(c);
      && Shaped(d) && Bounded(d)
      && d.timestamps == c.timestamps && d.maxSize == c.maxSize && d.ttl == c.ttl && d.enabled == c.enabled
      && (forall k :: k in d.weakMap ==> k in c.weakMap && d.weakMap[k] == c.weakMap[k])
      && (forall x, y :: Before(d.lruOrder, x, y) ==> Before(c.lruOrder, x, y))
    decreases |c.lruOrder|
  {
    if |c.lruOrder| > c.maxSize && c.lruOrder != [] {
      EvictFacts(c.(lruOrder := c.lruOrder[1..], weakMap := c.weakMap - {c.lruOrder[0]}));
    }
  }

  /** A key is only evicted when at least `maxSize` others stand behind it. */
  lemma {:induction false} EvictedIsOld<K(!new), V>(c: Cache<K, V>, k: K) returns (behind: seq<K>)
    requires Shaped(c) && k in c.weakMap && k !in Evict(c).weakMap
    ensures Distinct(behind) && |behind| >= c.maxSize
    ensures forall y :: y in behind ==> Before(c.lruOrder, k, y)
    decreases |c.lruOrder|
  {
    if c.lruOrder[0] == k {
      behind := c.lruOrder[1..];
    } else {
      behind := EvictedIsOld(c.(lruOrder := c.lruOrder[1..], weakMap := c.weakMap - {c.lruOrder[0]}), k);
    }
  }

  lemma InsertFacts<K(!new), V>(c: Cache<K, V>, k: K, info: Option<V>, now: int)
    requires Shaped(c)
    ensures Shaped(Insert(c, k, info, now)) && OrderKept(c, Insert(c, k, info, now), Some(k))
  {
    MoveToEndFacts(c.lruOrder, k);
  }

  lemma GetFacts<K(!new), V>(c: Cache<K, V>, op: Op<K, V>)
    requires Shaped(c) && Bounded(c) && op.Get?
    ensures var d := Step(c, op);
      && Shaped(d) && Bounded(d) && d.maxSize == c.maxSize && d.ttl == c.ttl
      && OrderKept(c, d, Touched(c, op)) && RecordsKept(c, d, op)
  {
    MoveToEndFacts(c.lruOrder, op.k);
    WithoutFacts(c.lruOrder, op.k);
  }

  lemma StepFacts<K(!new), V>(c: Cache<K, V>, op: Op<K, V>)
    requires Shaped(c) && Bounded(c)
    ensures var d := Step(c, op);
      && Shaped(d) && Bounded(d) && d.maxSize == c.maxSize && d.ttl == c.ttl
      && OrderKept(c, d, Touched(c, op)) && RecordsKept(c, d, op)
  {
    match op
    case Get(k, now) =>
      GetFacts(c, op);
    case Set(k, info, now) =>
      if c.enabled {
        InsertFacts(c, k, info, now);
        EvictFacts(Insert(c, k, info, now));
      }
    case Remove(k) =>
      WithoutFacts(c.lruOrder, k);
    case _ =>
  }

  /** Why a stored record disappears. */
  lemma LossReason<K(!new), V>(c: Cache<K, V>, op: Op<K, V>, k: K) returns (behind: seq<K>)
    requires Shaped(c) && k in c.weakMap && k !in Step(c, op).weakMap
    ensures
      || Forgets(op, k)
      || (TimeOf(op).Some? && TimeOf(op).value - c.weakMap[k].timestamp >= c.ttl)
      || (op.Set? && c.enabled && op.k != k && Distinct(behind) && |behind| >= c.maxSize
          && forall y :: y in behind ==> Before(Insert(c, op.k, op.info, op.now).lruOrder, k, y))
      || (op.Set? && c.enabled && op.k == k && c.maxSize <= 0)
  {
    behind := [];
    if op.Set? && c.enabled {
      InsertFacts(c, op.k, op.info, op.now);
      behind := EvictedIsOld(Insert(c, op.k, op.info, op.now), k);
      if op.k == k && behind != [] {
        LastHasNoneBehind(c, k, op, behind[0]);
      }
    }
  }

  lemma LastHasNoneBehind<K(!new), V>(c: Cache<K, V>, k: K, op: Op<K, V>, y: K)
    requires Shaped(c) && op.Set? && op.k == k
    ensures !Before(Insert(c, k, op.info, op.now).lruOrder, k, y)
  {
    MoveToEndFacts(c.lruOrder, k);
  }

  /** In every reachable state: the recency order has no duplicates and at most `maxSize`
      entries, every stored key is in it, later keys in it were touched since, and every
      stored record is the last one set. */
  lemma {:induction false} RunFacts<K(!new), V>(maxSize: int, ttl: int, ops: seq<Op<K, V>>)
    ensures var c := Run(maxSize, ttl, ops);
      && Shaped(c) && Bounded(c) && c.maxSize == maxSize && c.ttl == ttl
      && (forall x, y :: Before(c.lruOrder, x, y) ==> y in OthersSince(maxSize, ttl, ops, x))
      && (forall k :: k in c.weakMap ==> LastSet(maxSize, ttl, ops, k) == Some(c.weakMap[k]))
  {
    if ops != [] {
      hide Shaped, Bounded, Step, Touched, Fresh;
      var before, op := ops[..|ops| - 1], ops[|ops| - 1];
      RunFacts(maxSize, ttl, before);
      StepFacts(Run(maxSize, ttl, before), op);
    }
  }

  /** Until `now`, a record that is not expired and has seen fewer than `maxSize` other keys
      is still stored. */
  lemma {:induction false} Retained<K(!new), V>(maxSize: int, ttl: int, ops: seq<Op<K, V>>, k: K, now: int)
    requires Until(ops, now)
    requires LastSet(maxSize, ttl, ops, k).Some?
    requires now - LastSet(maxSize, ttl, ops, k).value.timestamp < ttl
    requires |OthersSince(maxSize, ttl, ops, k)| < maxSize
    ensures k in Run(maxSize, ttl, ops).weakMap
  {
    var before, op := ops[..|ops| - 1], ops[|ops| - 1];
    var c := Run(maxSize, ttl, before);
    RunFacts(maxSize, ttl, before);
    if op.Set? && op.k == k && c.enabled {
      if k !in Run(maxSize, ttl, ops).weakMap {
        var inserted := Insert(c, k, op.info, op.now);
        InsertFacts(c, k, op.info, op.now);
        var behind := EvictedIsOld(inserted, k);
        LastHasNoneBehind(c, k, op, behind[0]);
      }
    } else if Touched(c, op) != Some(k) {
      OthersGrow(maxSize, ttl, before, op, k);
      assert ops == before + [op];
      Retained(maxSize, ttl, before, k, now);
      if k !in Run(maxSize, ttl, ops).weakMap {
        var behind := LossReason(c, op, k);
        assert TimeOf(op).Some? ==> TimeOf(op).value <= now;
        assert op.Set? && c.enabled && op.k != k;
        InsertFacts(c, op.k, op.info, op.now);
        forall y | y in behind ensures y in OthersSince(maxSize, ttl, ops, k) {
        }
        DistinctSize(behind, OthersSince(maxSize, ttl, ops, k));
      }
    }
  }

  lemma OthersGrow<K(!new), V>(maxSize: int, ttl: int, before: seq<Op<K, V>>, op: Op<K, V>, k: K)
    requires Touched(Run(maxSize, ttl, before), op) != Some(k)
    ensures OthersSince(maxSize, ttl, before, k) <= OthersSince(maxSize, ttl, before + [op], k)
    ensures |OthersSince(maxSize, ttl, before, k)| <= |OthersSince(maxSize, ttl, before + [op], k)|
  {
    hide Run, Touched;
    assert (before + [op])[..|before|] == before && (before + [op])[|before|] == op;
    SubsetSize(OthersSince(maxSize, ttl, before, k), OthersSince(maxSize, ttl, before + [op], k));
  }

  // ----- the theorems ---------------------------------------------------------------

  /** `get` returns only the value last set for the key, younger than the time to live and
      neither removed nor cleared since, whatever the clock did. */
  lemma GetIsSound<K(!new), V>(maxSize: int, ttl: int, ops: seq<Op<K, V>>, k: K, now: int)
    ensures var (_, r) := DoGet(Run(maxSize, ttl, ops), k, now);
      r.Some? ==>
        && LastSet(maxSize, ttl, ops, k).Some?
        && LastSet(maxSize, ttl, ops, k).value.info == r
        && now - LastSet(maxSize, ttl, ops, k).value.timestamp < ttl
  {
    RunFacts(maxSize, ttl, ops);
  }

  /** `get` does return it, unless caching is off or at least `maxSize` other keys were set
      or hit since the key was last set or hit. */
  lemma GetSurvives<K(!new), V>(maxSize: int, ttl: int, ops: seq<Op<K, V>>, k: K, now: int)
    requires Until(ops, now) && Run(maxSize, ttl, ops).enabled
    requires LastSet(maxSize, ttl, ops, k).Some?
    requires now - LastSet(maxSize, ttl, ops, k).value.timestamp < ttl
    requires |OthersSince(maxSize, ttl, ops, k)| < maxSize
    ensures DoGet(Run(maxSize, ttl, ops), k, now).1 == LastSet(maxSize, ttl, ops, k).value.info
  {
    Retained(maxSize, ttl, ops, k, now);
    RunFacts(maxSize, ttl, ops);
  }

  /** The recency order never holds more than `maxSize` keys, and holds every stored key. */
  lemma SizeBounded<K(!new), V>(maxSize: int, ttl: int, ops: seq<Op<K, V>>)
    ensures var c := Run(maxSize, ttl, ops);
      && |c.lruOrder| <= (if maxSize < 0 then 0 else maxSize)
      && (forall k :: k in c.weakMap ==> k in c.lruOrder)
  {
    RunFacts(maxSize, ttl, ops);
  }

  /** `cleanup_expired` reports the number of entries it removed exactly when every expired
      timestamp still belongs to a stored entry: evictions, expiries seen by `get` and
      `clear` leave their timestamps behind. */
  lemma CleanupCountExact<K(!new), V>(maxSize: int, ttl: int, ops: seq<Op<K, V>>, now: int)
    ensures var c := Run(maxSize, ttl, ops);
      var removed := |c.weakMap.Keys| - |DoCleanup(c, now).weakMap.Keys|;
      |Expired(c, now)| == removed <==> Expired(c, now) <= c.weakMap.Keys
  {
    hide Run;
    var c := Run(maxSize, ttl, ops);
    assert DoCleanup(c, now).weakMap.Keys == c.weakMap.Keys - Expired(c, now);
    CountsAgree(Expired(c, now), c.weakMap.Keys);
  }

  lemma CountsAgree<K>(a: set<K>, b: set<K>)
    ensures |a| == |b| - |b - a| <==> a <= b
  {
    var both := a * b;
    assert b == (b - a) + both && a == (a - both) + both;
    if |a - both| == 0 {
      assert a == both;
    }
  }

  /** In every reachable state a cleanup drops exactly the records older than the time to live,
      and exactly the timestamps older than it, and leaves the order alone. */
  lemma CleanupDropsExpired<K(!new), V>(maxSize: int, ttl: int, ops: seq<Op<K, V>>, now: int)
    ensures var c := Run(maxSize, ttl, ops);
      var d := DoCleanup(c, now);
      && (forall k :: k in d.weakMap <==> k in c.weakMap && now - c.weakMap[k].timestamp <= ttl)
      && (forall k :: k in d.weakMap ==> d.weakMap[k] == c.weakMap[k])
      && (forall k :: k in d.timestamps <==> k in c.timestamps && now - c.timestamps[k] <= ttl)
      && d.lruOrder == c.lruOrder
  {
    RunFacts(maxSize, ttl, ops);
  }

  /** A read serves exactly the records younger than the time to live; any other stored record
      is dropped by the read, out of the order as well. */
  lemma ReadDropsExpired<K(!new), V>(maxSize: int, ttl: int, ops: seq<Op<K, V>>, k: K, now: int)
    requires Run(maxSize, ttl, ops).enabled && k in Run(maxSize, ttl, ops).weakMap
    ensures var c := Run(maxSize, ttl, ops);
      var (d, r) := DoGet(c, k, now);
      var young := now - c.weakMap[k].timestamp < ttl;
      && r == (if young then c.weakMap[k].info else None)
      && (forall j :: j in d.weakMap <==> j in c.weakMap && (j != k || young))
      && (forall j :: j in d.lruOrder <==> j in c.lruOrder && (j != k || young))
  {
    RunFacts(maxSize, ttl, ops);
    MoveToEndFacts(Run(maxSize, ttl, ops).lruOrder, k);
    WithoutFacts(Run(maxSize, ttl, ops).lruOrder, k);
    WithoutElements(Run(maxSize, ttl, ops).lruOrder, k);
  }

  /** Timestamps outlive records: only a set writes one, and only a cleanup that finds it
      expired, or the removal of a stored key, drops one. */
  lemma StampsAfter<K(!new), V>(maxSize: int, ttl: int, ops: seq<Op<K, V>>, op: Op<K, V>)
    ensures var c, d := Run(maxSize, ttl, ops), Run(maxSize, ttl, ops + [op]);
      && (forall k :: k in d.timestamps <==>
            if op.Set? && c.enabled && op.k == k then true
            else k in c.timestamps && !(op.Remove? && op.k == k && k in c.weakMap)
                 && !(op.Cleanup? && op.now - c.timestamps[k] > ttl))
      && (forall k :: k in d.timestamps ==>
            d.timestamps[k] == if op.Set? && c.enabled && op.k == k then op.now else c.timestamps[k])
  {
    assert (ops + [op])[..|ops|] == ops && (ops + [op])[|ops|] == op;
    var c := Run(maxSize, ttl, ops);
    RunFacts(maxSize, ttl, ops);
    if op.Set? {
      InsertFacts(c, op.k, op.info, op.now);
      EvictFacts(Insert(c, op.k, op.info, op.now));
    }
  }

  // ----- the object -----------------------------------------------------------------

  class FuncCodeInfoCache<K(==, !new), V> {
    const maxSize: int
    const ttl: int
    var weakMap: map<K, Record<V>>
    var lruOrder: seq<K>
    var timestamps: map<K, int>
    /** `CacheManager._global_cache_enabled`. */
    var enabled: bool

    function View(): Cache<K, V>
      reads this
    {
      Cache(weakMap, lruOrder, timestamps, maxSize, ttl, enabled)
    }

    constructor (maxSize: int, ttl: int)
      ensures View() == Run(maxSize, ttl, [])
    {
      this.maxSize, this.ttl := maxSize, ttl;
      weakMap, lruOrder, timestamps, enabled := map[], [], map[], true;
    }

    method Get(k: K, now: int) returns (info: Option<V>)
      modifies this
      ensures (View(), info) == DoGet(old(View()), k, now)
    {
      if !enabled || k !in weakMap {
        return None;
      }
      var record := weakMap[k];
      if now - record.timestamp < ttl {
        if k in lruOrder {
          lruOrder := MoveToEnd(lruOrder, k);
        }
        return record.info;
      }
      lruOrder := Without(lruOrder, k);
      weakMap := weakMap - {k};
      return None;
    }

    method Set(k: K, info: Option<V>, now: int)
      modifies this
      ensures View() == DoSet(old(View()), k, info, now)
    {
      if !enabled {
        return;
      }
      weakMap := weakMap[k := Record(info, now)];
      timestamps := timestamps[k := now];
      lruOrder := MoveToEnd(lruOrder, k);
      EvictIfNeeded();
    }

    method EvictIfNeeded()
      modifies this
      ensures View() == Evict(old(View()))
    {
      while |lruOrder| > maxSize && lruOrder != []
        invariant enabled == old(enabled) && Evict(View()) == Evict(old(View()))
        decreases |lruOrder|
      {
        var oldest := lruOrder[0];
        lruOrder := lruOrder[1..];
        weakMap := weakMap - {oldest};
      }
    }

    method Remove(k: K) returns (removed: bool)
      modifies this
      ensures View() == DoRemove(old(View()), k) && removed == (k in old(weakMap))
      ensures weakMap == old(weakMap) - {k} && (removed ==> timestamps == old(timestamps) - {k})
      ensures removed && Distinct(old(lruOrder)) ==> k !in lruOrder
      ensures !removed ==> lruOrder == old(lruOrder) && timestamps == old(timestamps)
    {
      removed := k in weakMap;
      if removed {
        if Distinct(lruOrder) {
          WithoutElements(lruOrder, k);
        }
        weakMap := weakMap - {k};
        lruOrder := Without(lruOrder, k);
        timestamps := timestamps - {k};
      }
    }

    method Clear()
      modifies this
      ensures View() == DoClear(old(View()))
      ensures weakMap == map[] && lruOrder == [] && timestamps == old(timestamps) && enabled == old(enabled)
    {
      lruOrder := [];
      weakMap := map[];
    }

    method CleanupExpired(now: int) returns (count: nat)
      modifies this
      ensures View() == DoCleanup(old(View()), now) && count == |Expired(old(View()), now)|
      ensures count == |set k | k in old(timestamps) && now - old(timestamps)[k] > ttl|
    {
      var expired := Expired(View(), now);
      count := |expired|;
      var rest := expired;
      while rest != {}
        invariant rest <= expired && enabled == old(enabled) && lruOrder == old(lruOrder)
        invariant weakMap == old(weakMap) - (expired - rest)
        invariant timestamps == old(timestamps) - (expired - rest)
        decreases rest
      {
        var k :| k in rest;
        weakMap := weakMap - {k};
        timestamps := timestamps - {k};
        rest := rest - {k};
      }
    }

    method SetEnabled(on: bool)
      modifies this
      ensures View() == DoEnable(old(View()), on)
    {
      enabled := on;
      if !on {
        Clear();
      }
    }
  }
}
