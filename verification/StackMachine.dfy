/**
  A stack machine for jump-free instruction lists, and the proof that the injected list
  does what the original did, plus one helper call at every site.
 */
module StackMachine {
  import opened Wrappers
  import opened Bytecode
  import opened Injector

  datatype Value = Null | Helper | ConstValue(c: Const) | Object(id: int)

  /** The operand stack, and everything else the program can touch (`rest`: locals,
      globals, heap, output). */
  datatype Core<W> = Core(stack: seq<Value>, rest: W)

  /** Execution goes on, or has left the list (a return or an exception). */
  datatype Outcome<W> = Running(core: Core<W>) | Halted(core: Core<W>)

  /** The parts of the interpreter that the injector knows nothing about: lookup of a name in
      the globals and builtins, what is left when an unbound name raises NameError, and every
      instruction other than the ones a check is made of. */
  datatype VM<!W(!new)> = VM(
    global: (string, Core<W>) -> Option<Value>,
    nameError: (string, Core<W>) -> Core<W>,
    other: (Byte, Option<int>, Operand, Core<W>) -> Outcome<W>)
  {
    predicate Binds(c: Core<W>) {
      global(HELPER, c) == Some(Helper)
    }

    /** The helper's name is the helper or nothing, whatever the program has done. */
    ghost predicate ReservesHelper() {
      forall c :: global(HELPER, c).None? || Binds(c)
    }

    /** The helper is reachable under its name, whatever the program has done. */
    ghost predicate BindsHelper() {
      forall c :: Binds(c)
    }

    /** Nothing ever puts the helper where the program can see it. */
    ghost predicate NeverBindsHelper() {
      forall c :: global(HELPER, c).None?
    }
  }

  /** What LOAD_GLOBAL leaves on the stack when the NULL is asked for. */
  function Callable(py: Python, f: Value): (r: seq<Value>)
    ensures 0 < |r| <= 2
  {
    match py.nullMode
    case NoNull => [f]
    case NullBelow => [Null, f]
    case NullAbove => [f, Null]
  }

  /** The stack ends in the helper and one argument, as CALL 1 wants them. */
  predicate CallsHelper(py: Python, stack: seq<Value>) {
    var n := |Callable(py, Helper)| + 1;
    |stack| >= n && stack[|stack| - n..|stack| - 1] == Callable(py, Helper)
  }

  /** One instruction: the outcome, and the arguments of any helper call it made.  The
      helper itself returns None and leaves the rest of the program alone. */
  function Step<W(!new)>(py: Python, vm: VM<W>, i: Instr, pools: Pools, c: Core<W>): (Outcome<W>, seq<Value>) {
    var operand := py.Denotes(i, pools);
    if i.op == py.cache then
      (Running(c), [])
    else if i.op == py.popTop && c.stack != [] then
      (Running(c.(stack := c.stack[..|c.stack| - 1])), [])
    else if i.op == py.loadConst && operand.ConstOperand? then
      (Running(c.(stack := c.stack + [ConstValue(operand.c)])), [])
    else if i.op == py.loadGlobal && operand.NameOperand? then
      match vm.global(operand.name, c)
      case None => (Halted(vm.nameError(operand.name, c)), [])
      case Some(f) =>
        var pushed := if i.arg.value % 2 == 1 then Callable(py, f) else [f];
        (Running(c.(stack := c.stack + if py.nullMode.NoNull? then [f] else pushed)), [])
    else if i.op == py.call && i.arg == Some(1) && CallsHelper(py, c.stack) then
      var base := c.stack[..|c.stack| - |Callable(py, Helper)| - 1];
      (Running(c.(stack := base + [ConstValue(NoneConst)])), [c.stack[|c.stack| - 1]])
    else
      (vm.other(i.op, i.arg, operand, c), [])
  }

  function Run<W(!new)>(py: Python, vm: VM<W>, instrs: seq<Instr>, pools: Pools, c: Core<W>): (Outcome<W>, seq<Value>) {
    if instrs == [] then (Running(c), [])
    else
      var (o, hits) := Step(py, vm, instrs[0], pools, c);
      if o.Halted? then (o, hits)
      else
        var (o', hits') := Run(py, vm, instrs[1..], pools, o.core);
        (o', hits + hits')
  }

  /** The specification: run the original list, and after each instruction that has a
      site record its line, without touching anything else. */
  function Observed<W(!new)>(
      py: Python, vm: VM<W>, instrs: seq<Instr>, sites: seq<Option<int>>, pools: Pools, c: Core<W>)
    : (Outcome<W>, seq<Value>)
    requires |sites| == |instrs|
  {
    if instrs == [] then (Running(c), [])
    else
      var (o, hits) := Step(py, vm, instrs[0], pools, c);
      if o.Halted? then (o, hits)
      else
        var (o', hits') := Observed(py, vm, instrs[1..], sites[1..], pools, o.core);
        (o', hits + HitAt(sites[0]) + hits')
  }

  /** What the injected list really does: like `Observed`, but a site that is passed while the
      helper's name is unbound raises NameError. */
  function Watched<W(!new)>(
      py: Python, vm: VM<W>, instrs: seq<Instr>, sites: seq<Option<int>>, pools: Pools, c: Core<W>)
    : (Outcome<W>, seq<Value>)
    requires |sites| == |instrs|
  {
    if instrs == [] then (Running(c), [])
    else
      var (o, hits) := Step(py, vm, instrs[0], pools, c);
      if o.Halted? then (o, hits)
      else if sites[0].Some? && !vm.Binds(o.core) then (Halted(vm.nameError(HELPER, o.core)), hits)
      else
        var (o', hits') := Watched(py, vm, instrs[1..], sites[1..], pools, o.core);
        (o', hits + HitAt(sites[0]) + hits')
  }

  /** The helper's name is bound at every site that the original run passes. */
  predicate BoundAtSites<W(!new)>(
      py: Python, vm: VM<W>, instrs: seq<Instr>, sites: seq<Option<int>>, pools: Pools, c: Core<W>)
    requires |sites| == |instrs|
  {
    instrs == []
    || (var (o, _) := Step(py, vm, instrs[0], pools, c);
        o.Running? ==>
          && (sites[0].Some? ==> vm.Binds(o.core))
          && BoundAtSites(py, vm, instrs[1..], sites[1..], pools, o.core))
  }

  /** The sites that the original run passes. */
  function SitesPassed<W(!new)>(
      py: Python, vm: VM<W>, instrs: seq<Instr>, sites: seq<Option<int>>, pools: Pools, c: Core<W>): nat
    requires |sites| == |instrs|
  {
    if instrs == [] then 0
    else
      var (o, _) := Step(py, vm, instrs[0], pools, c);
      if o.Halted? then 0
      else |HitAt(sites[0])| + SitesPassed(py, vm, instrs[1..], sites[1..], pools, o.core)
  }

  function HitAt(site: Option<int>): seq<Value> {
    if site.Some? then [ConstValue(IntConst(site.value))] else []
  }

  lemma {:induction false} RunConcat<W(!new)>(
      py: Python, vm: VM<W>, a: seq<Instr>, b: seq<Instr>, pools: Pools, c: Core<W>)
    ensures var (o, hits) := Run(py, vm, a, pools, c);
      Run(py, vm, a + b, pools, c) ==
      if o.Halted? then (o, hits)
      else (Run(py, vm, b, pools, o.core).0, hits + Run(py, vm, b, pools, o.core).1)
  {
    if a == [] {
      assert a + b == b;
      assert [] + Run(py, vm, b, pools, c).1 == Run(py, vm, b, pools, c).1;
    } else {
      assert (a + b)[0] == a[0] && (a + b)[1..] == a[1..] + b;
      var (o, hits) := Step(py, vm, a[0], pools, c);
      if o.Running? {
        RunConcat(py, vm, a[1..], b, pools, o.core);
        var (o1, h1) := Run(py, vm, a[1..], pools, o.core);
        if o1.Running? {
          var (o2, h2) := Run(py, vm, b, pools, o1.core);
          assert hits + (h1 + h2) == (hits + h1) + h2;
        }
      }
    }
  }

  lemma RunOne<W(!new)>(py: Python, vm: VM<W>, i: Instr, pools: Pools, c: Core<W>)
    ensures Run(py, vm, [i], pools, c) == Step(py, vm, i, pools, c)
  {
    var (o, hits) := Step(py, vm, i, pools, c);
    if o.Running? {
      assert Run(py, vm, [i][1..], pools, o.core) == (Running(o.core), []);
      assert hits + [] == hits;
    }
  }

  lemma {:induction false} RunCaches<W(!new)>(py: Python, vm: VM<W>, caches: seq<Instr>, pools: Pools, c: Core<W>)
    requires forall i :: 0 <= i < |caches| ==> caches[i] == CacheInstr(py)
    ensures Run(py, vm, caches, pools, c) == (Running(c), [])
  {
    if caches != [] {
      RunCaches(py, vm, caches[1..], pools, c);
      RunOne(py, vm, caches[0], pools, c);
      RunAfterSilent(py, vm, [caches[0]], caches[1..], pools, c, c);
      assert [caches[0]] + caches[1..] == caches;
    }
  }

  lemma RunAfterSilent<W(!new)>(
      py: Python, vm: VM<W>, a: seq<Instr>, b: seq<Instr>, pools: Pools, c: Core<W>, c1: Core<W>)
    requires Run(py, vm, a, pools, c) == (Running(c1), [])
    ensures Run(py, vm, a + b, pools, c) == Run(py, vm, b, pools, c1)
  {
    RunConcat(py, vm, a, b, pools, c);
    assert [] + Run(py, vm, b, pools, c1).1 == Run(py, vm, b, pools, c1).1;
  }

  lemma LoadHelper<W(!new)>(py: Python, vm: VM<W>, pools: Pools, c: Core<W>)
    requires py.Valid() && vm.ReservesHelper() && HELPER in pools.names
    ensures var lg := Instr(py.loadGlobal, Some(py.GlobalArg(IndexOf(pools.names, HELPER))), NameOperand(HELPER));
      Step(py, vm, lg, pools, c) ==
      (if vm.Binds(c) then Running(c.(stack := c.stack + Callable(py, Helper)))
       else Halted(vm.nameError(HELPER, c)), [])
  {
    var n := IndexOf(pools.names, HELPER);
    var lg := Instr(py.loadGlobal, Some(py.GlobalArg(n)), NameOperand(HELPER));
    assert py.Denotes(lg, pools) == NameOperand(HELPER);
    assert vm.global(HELPER, c).None? || vm.Binds(c);
  }

  lemma CallHelper<W(!new)>(py: Python, vm: VM<W>, pools: Pools, v: Value, c: Core<W>)
    requires py.Valid()
    ensures Step(py, vm, Instr(py.call, Some(1), NoOperand), pools,
                 c.(stack := c.stack + Callable(py, Helper) + [v]))
            == (Running(c.(stack := c.stack + [ConstValue(NoneConst)])), [v])
  {
    var s := c.stack + Callable(py, Helper) + [v];
    var n := |Callable(py, Helper)| + 1;
    assert s[|s| - n..|s| - 1] == Callable(py, Helper);
    assert s[..|s| - n] == c.stack;
  }

  lemma PopNone<W(!new)>(py: Python, vm: VM<W>, pools: Pools, v: Value, c: Core<W>)
    requires py.Valid()
    ensures Step(py, vm, Instr(py.popTop, None, NoOperand), pools, c.(stack := c.stack + [v])) == (Running(c), [])
  {
    assert (c.stack + [v])[..|c.stack|] == c.stack;
  }

  /** A resolved check is stack-neutral, changes nothing and reports its line exactly when the
      helper's name is bound where it stands; otherwise it raises NameError. */
  lemma CheckIsNeutral<W(!new)>(py: Python, vm: VM<W>, pools: Pools, line: int, c: Core<W>)
    requires py.Valid() && vm.ReservesHelper() && Supplies(pools, line)
    ensures Run(py, vm, CheckIn(py, pools, line), pools, c) ==
            if vm.Binds(c) then (Running(c), [ConstValue(IntConst(line))])
            else (Halted(vm.nameError(HELPER, c)), [])
    ensures Run(py, vm, CheckIn(py, pools, line), pools, c) == (Running(c), [ConstValue(IntConst(line))]) <==>
            vm.Binds(c)
  {
    var v := ConstValue(IntConst(line));
    var lg := Instr(py.loadGlobal, Some(py.GlobalArg(IndexOf(pools.names, HELPER))), NameOperand(HELPER));
    var lc := Instr(py.loadConst, Some(IndexOf(pools.consts, IntConst(line))), ConstOperand(IntConst(line)));
    var call := Instr(py.call, Some(1), NoOperand);
    var pop := Instr(py.popTop, None, NoOperand);
    var end := [call] + (CacheRun(py, py.call) + [pop]);
    var c1 := c.(stack := c.stack + Callable(py, Helper));
    assert CheckIn(py, pools, line) == [lg] + (CacheRun(py, py.loadGlobal) + ([lc] + end));
    LoadHelper(py, vm, pools, c);
    RunOne(py, vm, lg, pools, c);
    if !vm.Binds(c) {
      RunConcat(py, vm, [lg], CacheRun(py, py.loadGlobal) + ([lc] + end), pools, c);
      return;
    }
    RunAfterSilent(py, vm, [lg], CacheRun(py, py.loadGlobal) + ([lc] + end), pools, c, c1);
    RunCaches(py, vm, CacheRun(py, py.loadGlobal), pools, c1);
    RunAfterSilent(py, vm, CacheRun(py, py.loadGlobal), [lc] + end, pools, c1, c1);
    var c2 := c1.(stack := c1.stack + [v]);
    RunOne(py, vm, lc, pools, c1);
    RunAfterSilent(py, vm, [lc], end, pools, c1, c2);
    CallAndDrop(py, vm, pools, v, c);
  }

  lemma CallAndDrop<W(!new)>(py: Python, vm: VM<W>, pools: Pools, v: Value, c: Core<W>)
    requires py.Valid()
    ensures Run(py, vm,
                [Instr(py.call, Some(1), NoOperand)] + (CacheRun(py, py.call) + [Instr(py.popTop, None, NoOperand)]),
                pools, c.(stack := c.stack + Callable(py, Helper) + [v]))
            == (Running(c), [v])
  {
    var call := Instr(py.call, Some(1), NoOperand);
    var pop := Instr(py.popTop, None, NoOperand);
    var c2 := c.(stack := c.stack + Callable(py, Helper) + [v]);
    var c3 := c.(stack := c.stack + [ConstValue(NoneConst)]);
    CallHelper(py, vm, pools, v, c);
    RunOne(py, vm, call, pools, c2);
    RunConcat(py, vm, [call], CacheRun(py, py.call) + [pop], pools, c2);
    RunCaches(py, vm, CacheRun(py, py.call), pools, c3);
    RunAfterSilent(py, vm, CacheRun(py, py.call), [pop], pools, c3, c3);
    PopNone(py, vm, pools, ConstValue(NoneConst), c);
    RunOne(py, vm, pop, pools, c3);
  }

  /** Growing the pools does not change what an instruction with valid indices does. */
  lemma StepStable<W(!new)>(py: Python, vm: VM<W>, i: Instr, p: Pools, q: Pools, c: Core<W>)
    requires Extends(p, q) && py.Denotes(i, p) != Unresolved
    ensures Step(py, vm, i, q, c) == Step(py, vm, i, p, c)
  {
    DenotationStable(py, i, p, q);
  }

  lemma {:induction false} RunWoven<W(!new)>(
      py: Python, vm: VM<W>, instrs: seq<Instr>, sites: seq<Option<int>>, p: Pools, q: Pools, c: Core<W>)
    requires py.Valid() && vm.ReservesHelper() && |sites| == |instrs|
    requires Extends(p, q) && InRange(py, instrs, p)
    requires forall i :: 0 <= i < |sites| && sites[i].Some? ==> Supplies(q, sites[i].value)
    ensures Run(py, vm, WeaveIn(py, q, instrs, sites), q, c) == Watched(py, vm, instrs, sites, p, c)
  {
    if instrs != [] {
      hide Step, WeaveIn, CheckAtIn, Run, Watched, HitAt, InRange, Extends, Supplies, VM.Binds, Python.Valid;
      HeadInRange(py, instrs, p);
      var w := WeaveIn(py, q, instrs, sites);
      var rest := WeaveIn(py, q, instrs[1..], sites[1..]);
      StepStable(py, vm, instrs[0], p, q, c);
      WovenTail(py, q, instrs, sites);
      RunCons(py, vm, w, q, c);
      WatchedCons(py, vm, instrs, sites, p, c);
      var (o, hits) := Step(py, vm, instrs[0], p, c);
      if o.Running? {
        InRangeTail(py, instrs, p);
        assert forall i :: 0 <= i < |sites[1..]| ==> sites[1..][i] == sites[i + 1];
        RunWoven(py, vm, instrs[1..], sites[1..], p, q, o.core);
        RunCheckAt(py, vm, q, sites[0], rest, o.core);
        Regroup(hits, HitAt(sites[0]), Watched(py, vm, instrs[1..], sites[1..], p, o.core).1);
      }
    }
  }

  lemma Regroup(a: seq<Value>, b: seq<Value>, c: seq<Value>)
    ensures a + (b + c) == a + b + c && a + [] == a
  {
  }

  lemma HeadInRange(py: Python, instrs: seq<Instr>, pools: Pools)
    requires instrs != [] && InRange(py, instrs, pools)
    ensures py.Denotes(instrs[0], pools) != Unresolved
  {
  }

  lemma InRangeTail(py: Python, instrs: seq<Instr>, pools: Pools)
    requires instrs != [] && InRange(py, instrs, pools)
    ensures InRange(py, instrs[1..], pools)
  {
    assert forall i :: 0 <= i < |instrs[1..]| ==> instrs[1..][i] == instrs[i + 1];
  }

  lemma RunCons<W(!new)>(py: Python, vm: VM<W>, instrs: seq<Instr>, pools: Pools, c: Core<W>)
    requires instrs != []
    ensures var (o, hits) := Step(py, vm, instrs[0], pools, c);
      Run(py, vm, instrs, pools, c) ==
      if o.Halted? then (o, hits)
      else (Run(py, vm, instrs[1..], pools, o.core).0, hits + Run(py, vm, instrs[1..], pools, o.core).1)
  {
    hide Step;
  }

  lemma WatchedCons<W(!new)>(
      py: Python, vm: VM<W>, instrs: seq<Instr>, sites: seq<Option<int>>, pools: Pools, c: Core<W>)
    requires |sites| == |instrs| > 0
    ensures var (o, hits) := Step(py, vm, instrs[0], pools, c);
      Watched(py, vm, instrs, sites, pools, c) ==
      if o.Halted? then (o, hits)
      else if sites[0].Some? && !vm.Binds(o.core) then (Halted(vm.nameError(HELPER, o.core)), hits)
      else (Watched(py, vm, instrs[1..], sites[1..], pools, o.core).0,
            hits + HitAt(sites[0]) + Watched(py, vm, instrs[1..], sites[1..], pools, o.core).1)
  {
    hide Step;
  }

  lemma RunCheckAt<W(!new)>(
      py: Python, vm: VM<W>, pools: Pools, site: Option<int>, rest: seq<Instr>, c: Core<W>)
    requires py.Valid() && vm.ReservesHelper() && (site.Some? ==> Supplies(pools, site.value))
    ensures var (o, hits) := Run(py, vm, rest, pools, c);
            Run(py, vm, CheckAtIn(py, pools, site) + rest, pools, c) ==
            if site.Some? && !vm.Binds(c) then (Halted(vm.nameError(HELPER, c)), [])
            else (o, HitAt(site) + hits)
  {
    hide Step, CheckIn;
    if site.Some? {
      CheckIsNeutral(py, vm, pools, site.value, c);
    }
    RunConcat(py, vm, CheckAtIn(py, pools, site), rest, pools, c);
  }

  // ----- the theorems ---------------------------------------------------------------

  /** At the first unbound site the report is missing, and nothing makes up for it later. */
  lemma {:induction false} UnboundLosesReports<W(!new)>(
      py: Python, vm: VM<W>, instrs: seq<Instr>, sites: seq<Option<int>>, pools: Pools, c: Core<W>)
    requires |sites| == |instrs|
    ensures if BoundAtSites(py, vm, instrs, sites, pools, c)
            then Watched(py, vm, instrs, sites, pools, c) == Observed(py, vm, instrs, sites, pools, c)
            else |Watched(py, vm, instrs, sites, pools, c).1| < |Observed(py, vm, instrs, sites, pools, c).1|
  {
    hide Step;
    if instrs != [] {
      var (o, hits) := Step(py, vm, instrs[0], pools, c);
      if o.Running? {
        UnboundLosesReports(py, vm, instrs[1..], sites[1..], pools, o.core);
      }
    }
  }

  /** What injection does to the meaning, exactly: the injected and resolved list, executed
      with the grown pools, ends with the stack and program state of the original, with one
      report for each site passed, if and only if the helper's name is bound at each of them. */
  lemma InjectionMeaningIff<W(!new)>(
      py: Python, vm: VM<W>, instrs: seq<Instr>, sites: seq<Option<int>>, pools: Pools, c: Core<W>)
    requires py.Valid() && vm.ReservesHelper() && |sites| == |instrs|
    requires AllResolved(py, instrs) && InRange(py, instrs, pools)
    ensures var (r, q) := Resolve(py, Weave(py, instrs, sites), pools);
      && Run(py, vm, r, q, c) == Watched(py, vm, instrs, sites, pools, c)
      && (Run(py, vm, r, q, c) == Observed(py, vm, instrs, sites, pools, c) <==>
          BoundAtSites(py, vm, instrs, sites, pools, c))
  {
    hide Run, Watched, Observed, BoundAtSites, Step;
    ResolveWeave(py, instrs, sites, pools);
    var (r, q) := Resolve(py, Weave(py, instrs, sites), pools);
    RunWoven(py, vm, instrs, sites, pools, q, c);
    UnboundLosesReports(py, vm, instrs, sites, pools, c);
  }

  /** Where the helper is always bound, injection preserves meaning: the outcome is that of
      the original list. */
  lemma InjectionPreservesMeaning<W(!new)>(
      py: Python, vm: VM<W>, instrs: seq<Instr>, sites: seq<Option<int>>, pools: Pools, c: Core<W>)
    requires py.Valid() && vm.BindsHelper() && |sites| == |instrs|
    requires AllResolved(py, instrs) && InRange(py, instrs, pools)
    ensures var (r, q) := Resolve(py, Weave(py, instrs, sites), pools);
      && Run(py, vm, r, q, c) == Observed(py, vm, instrs, sites, pools, c)
      && Run(py, vm, r, q, c).0 == Run(py, vm, instrs, pools, c).0
  {
    hide Run, Watched, Observed, Step;
    InjectionMeaningIff(py, vm, instrs, sites, pools, c);
    BoundEverywhere(py, vm, instrs, sites, pools, c);
    ObservedKeepsOutcome(py, vm, instrs, sites, pools, c);
  }

  /** Where nothing binds the helper, as in a module that has not been given it, the first
      site passed ends the program with NameError and nothing is ever reported. */
  lemma UnboundHelperEndsProgram<W(!new)>(
      py: Python, vm: VM<W>, instrs: seq<Instr>, sites: seq<Option<int>>, pools: Pools, c: Core<W>)
    requires py.Valid() && vm.NeverBindsHelper() && |sites| == |instrs|
    requires AllResolved(py, instrs) && InRange(py, instrs, pools)
    ensures var (r, q) := Resolve(py, Weave(py, instrs, sites), pools);
      && (SitesPassed(py, vm, instrs, sites, pools, c) > 0 ==> Run(py, vm, r, q, c).0.Halted?)
      && (Run(py, vm, r, q, c) == Observed(py, vm, instrs, sites, pools, c) <==>
          SitesPassed(py, vm, instrs, sites, pools, c) == 0)
  {
    hide Run, Watched, Observed, Step, BoundAtSites, SitesPassed;
    InjectionMeaningIff(py, vm, instrs, sites, pools, c);
    BoundNowhere(py, vm, instrs, sites, pools, c);
  }

  lemma {:induction false} BoundEverywhere<W(!new)>(
      py: Python, vm: VM<W>, instrs: seq<Instr>, sites: seq<Option<int>>, pools: Pools, c: Core<W>)
    requires vm.BindsHelper() && |sites| == |instrs|
    ensures BoundAtSites(py, vm, instrs, sites, pools, c)
  {
    hide Step;
    if instrs != [] {
      BoundEverywhere(py, vm, instrs[1..], sites[1..], pools, Step(py, vm, instrs[0], pools, c).0.core);
    }
  }

  lemma {:induction false} BoundNowhere<W(!new)>(
      py: Python, vm: VM<W>, instrs: seq<Instr>, sites: seq<Option<int>>, pools: Pools, c: Core<W>)
    requires vm.NeverBindsHelper() && |sites| == |instrs|
    ensures BoundAtSites(py, vm, instrs, sites, pools, c) <==> SitesPassed(py, vm, instrs, sites, pools, c) == 0
    ensures SitesPassed(py, vm, instrs, sites, pools, c) > 0 ==> Watched(py, vm, instrs, sites, pools, c).0.Halted?
  {
    hide Step;
    if instrs != [] {
      BoundNowhere(py, vm, instrs[1..], sites[1..], pools, Step(py, vm, instrs[0], pools, c).0.core);
    }
  }

  lemma {:induction false} ObservedKeepsOutcome<W(!new)>(
      py: Python, vm: VM<W>, instrs: seq<Instr>, sites: seq<Option<int>>, pools: Pools, c: Core<W>)
    requires |sites| == |instrs|
    ensures Observed(py, vm, instrs, sites, pools, c).0 == Run(py, vm, instrs, pools, c).0
  {
    hide Step;
    if instrs != [] {
      var (o, hits) := Step(py, vm, instrs[0], pools, c);
      if o.Running? {
        ObservedKeepsOutcome(py, vm, instrs[1..], sites[1..], pools, o.core);
      }
    }
  }

  function SiteLines(sites: seq<Option<int>>): seq<Value> {
    if sites == [] then [] else HitAt(sites[0]) + SiteLines(sites[1..])
  }

  lemma {:induction false} ObservedReports<W(!new)>(
      py: Python, vm: VM<W>, instrs: seq<Instr>, sites: seq<Option<int>>, pools: Pools, c: Core<W>)
    requires |sites| == |instrs|
    requires Run(py, vm, instrs, pools, c).0.Running? && Run(py, vm, instrs, pools, c).1 == []
    ensures Observed(py, vm, instrs, sites, pools, c).1 == SiteLines(sites)
  {
    hide Step;
    if instrs != [] {
      var (o, hits) := Step(py, vm, instrs[0], pools, c);
      var (o', hits') := Run(py, vm, instrs[1..], pools, o.core);
      assert |hits + hits'| == 0;
      assert hits == [] && hits' == [];
      ObservedReports(py, vm, instrs[1..], sites[1..], pools, o.core);
    }
  }

  /** When the original list reaches its end without calling the helper itself, the injected
      list reports every site exactly once, in order. */
  lemma OneReportPerSite<W(!new)>(
      py: Python, vm: VM<W>, instrs: seq<Instr>, sites: seq<Option<int>>, pools: Pools, c: Core<W>)
    requires py.Valid() && vm.BindsHelper() && |sites| == |instrs|
    requires AllResolved(py, instrs) && InRange(py, instrs, pools)
    requires Run(py, vm, instrs, pools, c).0.Running? && Run(py, vm, instrs, pools, c).1 == []
    ensures var (r, q) := Resolve(py, Weave(py, instrs, sites), pools);
      Run(py, vm, r, q, c).0.Running? && Run(py, vm, r, q, c).1 == SiteLines(sites)
  {
    hide Run, Observed, Step;
    InjectionPreservesMeaning(py, vm, instrs, sites, pools, c);
    ObservedReports(py, vm, instrs, sites, pools, c);
  }
}
