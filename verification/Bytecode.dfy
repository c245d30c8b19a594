/**
  The instruction list that the breakpoint injector works on: instructions, the
  constant and name pools of a code object, and the interpreter version as a record
  of opcode numbers, operand kinds and inline-cache counts.  Nothing below fixes a
  version: every result holds for every `Python` record that is `Valid`.
 */
module Bytecode {
  import opened Wrappers

  /** A constant of a code object; two constants are the same when type and value agree. */
  datatype Const = NoneConst | BoolConst(b: bool) | IntConst(n: int) | OtherConst(id: int)

  /** What `dis` reports as `argval`: the constant or name that an argument denotes. */
  datatype Operand = NoOperand | Unresolved | ConstOperand(c: Const) | NameOperand(name: string)

  datatype Instr = Instr(op: Byte, arg: Option<int>, argval: Operand)

  datatype Pools = Pools(consts: seq<Const>, names: seq<string>)

  /** How an argument denotes: not at all, an index into the constants, or an index
      into the names after division by `scale` (2 where the low bit is a flag). */
  datatype OperandKind = Plain | ConstIndex | NameIndex(scale: nat)

  /** Where LOAD_GLOBAL puts the NULL that CALL expects: nowhere before 3.11, below
      the callable in 3.11 and 3.12, above it from 3.13 on. */
  datatype NullMode = NoNull | NullBelow | NullAbove

  /** `caches(op)` is how many inline-cache words the interpreter skips after `op`.  `dis` is
      asked to list them as CACHE entries and does (`listsCaches`) up to 3.12.  The injector
      looks their number up by opcode, which finds it (`cachesByOpcode`) while that table is
      indexed by opcode, again up to 3.12; from 3.13 on the table is keyed by name. */
  datatype Python = Python(
    loadConst: Byte, loadGlobal: Byte, loadFast: Byte, storeFast: Byte,
    call: Byte, popTop: Byte, cache: Byte, extendedArg: Byte,
    nullMode: NullMode, listsCaches: bool, cachesByOpcode: bool,
    hasArg: Byte -> bool, kind: Byte -> OperandKind, caches: Byte -> nat)
  {
    predicate Valid() {
      && loadConst != loadGlobal && loadConst != call && loadConst != popTop && loadConst != cache
      && loadGlobal != call && loadGlobal != popTop && loadGlobal != cache
      && call != popTop && call != cache && popTop != cache
      && extendedArg != loadConst && extendedArg != loadGlobal && extendedArg != call
      && hasArg(loadConst) && hasArg(loadGlobal) && hasArg(call) && hasArg(extendedArg)
      && !hasArg(popTop) && !hasArg(cache)
      && kind(loadConst) == ConstIndex && kind(loadGlobal) == NameIndex(GlobalScale())
      && kind(call) == Plain && kind(extendedArg) == Plain
      && caches(cache) == 0 && caches(loadConst) == 0 && caches(popTop) == 0
      && caches(extendedArg) == 0
      && loadFast != cache && storeFast != cache && loadFast != extendedArg && storeFast != extendedArg
      && (cachesByOpcode ==> listsCaches)
    }

    /** The CACHE entries that the injector puts after an opcode of its own. */
    function Emitted(op: Byte): nat {
      if cachesByOpcode then caches(op) else 0
    }

    /** The opcodes of a check get the CACHE entries that the interpreter skips. */
    predicate EmitsCaches() {
      Emitted(loadGlobal) == caches(loadGlobal) && Emitted(call) == caches(call)
    }

    function GlobalScale(): nat {
      if nullMode.NoNull? then 1 else 2
    }

    /** LOAD_GLOBAL's argument for a name index: the low bit asks for the NULL. */
    function GlobalArg(nameIndex: nat): nat {
      if nullMode.NoNull? then nameIndex else 2 * nameIndex + 1
    }

    function OperandOf(op: Byte, arg: int, pools: Pools): Operand {
      match kind(op)
      case Plain => NoOperand
      case ConstIndex =>
        if 0 <= arg < |pools.consts| then ConstOperand(pools.consts[arg]) else Unresolved
      case NameIndex(scale) =>
        if scale > 0 && 0 <= arg && arg / scale < |pools.names|
        then NameOperand(pools.names[arg / scale]) else Unresolved
    }

    /** The instruction's operand under `pools`, as the interpreter looks it up. */
    function Denotes(i: Instr, pools: Pools): Operand {
      if i.arg.Some? && hasArg(i.op) then OperandOf(i.op, i.arg.value, pools) else NoOperand
    }
  }

  const HELPER := "_dapper_breakpoint"

  /** An argument that still has to be resolved against the pools. */
  predicate Synthetic(py: Python, i: Instr) {
    (i.op == py.loadConst || i.op == py.loadGlobal) && (i.arg.None? || i.arg.value < 0)
  }

  predicate AllResolved(py: Python, instrs: seq<Instr>) {
    forall i :: 0 <= i < |instrs| ==> !Synthetic(py, instrs[i])
  }

  /** Every index used by the list exists in the pools, as in any real code object. */
  predicate InRange(py: Python, instrs: seq<Instr>, pools: Pools) {
    forall i :: 0 <= i < |instrs| ==> py.Denotes(instrs[i], pools) != Unresolved
  }

  // ----- pools: find or append ------------------------------------------------------

  /** First index of `v`, or |s| when it is absent. */
  function IndexOf<T(==)>(s: seq<T>, v: T): (i: nat)
    ensures i <= |s|
    ensures v in s <==> i < |s|
    ensures i < |s| ==> s[i] == v
    ensures forall j :: 0 <= j < i ==> s[j] != v
  {
    if s == [] then 0 else if s[0] == v then 0 else 1 + IndexOf(s[1..], v)
  }

  function WithValue<T(==)>(s: seq<T>, v: T): (r: seq<T>)
    ensures s <= r && v in r
    ensures IndexOf(r, v) == IndexOf(s, v)
  {
    if v in s then s else AppendedIndex(s, v); s + [v]
  }

  /** A value gets the place of its first occurrence, or the next one after the end when it is
      absent, and nothing else is added. */
  lemma FoundOrAppended<T>(s: seq<T>, v: T)
    ensures |WithValue(s, v)| == |s| + (if v in s then 0 else 1) && WithValue(s, v)[..|s|] == s
    ensures var i := IndexOf(WithValue(s, v), v);
      WithValue(s, v)[i] == v && v !in s[..i] && (v !in s ==> i == |s|)
  {
  }

  lemma AppendedIndex<T>(s: seq<T>, v: T)
    requires v !in s
    ensures IndexOf(s + [v], v) == |s|
  {
    assert (s + [v])[|s|] == v;
    assert forall j :: 0 <= j < |s| ==> (s + [v])[j] == s[j];
  }

  /** A first occurrence stays the first occurrence when the pool grows at its end. */
  lemma IndexStable<T>(s: seq<T>, t: seq<T>, v: T)
    requires s <= t && v in s
    ensures IndexOf(t, v) == IndexOf(s, v)
  {
    var i, j := IndexOf(s, v), IndexOf(t, v);
    assert t[i] == s[i] == v;
    assert j <= i && s[j] == t[j];
  }

  predicate Extends(p: Pools, q: Pools) {
    p.consts <= q.consts && p.names <= q.names
  }

  /** Appending never changes what an index that already existed denotes. */
  lemma DenotationStable(py: Python, i: Instr, p: Pools, q: Pools)
    requires Extends(p, q) && py.Denotes(i, p) != Unresolved
    ensures py.Denotes(i, q) == py.Denotes(i, p)
  {
    if i.arg.Some? && py.hasArg(i.op) {
      match py.kind(i.op)
      case Plain =>
      case ConstIndex => assert q.consts[i.arg.value] == p.consts[i.arg.value];
      case NameIndex(scale) =>
        assert q.names[i.arg.value / scale] == p.names[i.arg.value / scale];
    }
  }

  /** The constant and name lists of a code object under reconstruction, grown in place. */
  class CodePools {
    var constants: seq<Const>
    var names: seq<string>

    constructor (original: Pools)
      ensures View() == original
    {
      constants, names := original.consts, original.names;
    }

    function View(): Pools
      reads this
    {
      Pools(constants, names)
    }

    method FindOrAppendConstant(v: Const) returns (index: nat)
      modifies this
      ensures names == old(names) && constants == WithValue(old(constants), v)
      ensures index == IndexOf(constants, v) && index < |constants|
    {
      index := 0;
      while index < |constants|
        invariant index <= |constants|
        invariant forall j :: 0 <= j < index ==> constants[j] != v
      {
        if constants[index] == v {
          assert v in constants;
          return;
        }
        index := index + 1;
      }
      AppendedIndex(constants, v);
      constants := constants + [v];
      return |constants| - 1;
    }

    method FindOrAppendName(v: string) returns (index: nat)
      modifies this
      ensures constants == old(constants) && names == WithValue(old(names), v)
      ensures index == IndexOf(names, v) && index < |names|
    {
      index := IndexOf(names, v);
      if index == |names| {
        AppendedIndex(names, v);
        names := names + [v];
      }
    }
  }

  // ----- resolving synthetic arguments ----------------------------------------------

  function ResolveOne(py: Python, i: Instr, pools: Pools): (Instr, Pools) {
    if !Synthetic(py, i) then (i, pools)
    else if i.op == py.loadConst then
      var v := if i.argval.ConstOperand? then i.argval.c else NoneConst;
      (i.(arg := Some(IndexOf(pools.consts, v))), pools.(consts := WithValue(pools.consts, v)))
    else
      var n := if i.argval.NameOperand? then i.argval.name else "";
      (i.(arg := Some(py.GlobalArg(IndexOf(pools.names, n)))), pools.(names := WithValue(pools.names, n)))
  }

  /** A constant load that had to be resolved denotes its own constant in the pools it leaves,
      or None when it had none. */
  lemma ResolvedConstant(py: Python, i: Instr, pools: Pools)
    requires py.Valid() && Synthetic(py, i) && i.op == py.loadConst
    ensures var (r, q) := ResolveOne(py, i, pools);
      && r.op == i.op && r.argval == i.argval && Extends(pools, q) && q.names == pools.names
      && py.Denotes(r, q) == if i.argval.ConstOperand? then i.argval else ConstOperand(NoneConst)
  {
  }

  /** A global load denotes its own name, or the empty one, and asks for the NULL by an odd
      argument where there is one to push. */
  lemma ResolvedGlobal(py: Python, i: Instr, pools: Pools)
    requires py.Valid() && Synthetic(py, i) && i.op == py.loadGlobal
    ensures var (r, q) := ResolveOne(py, i, pools);
      && r.op == i.op && r.argval == i.argval && Extends(pools, q) && q.consts == pools.consts
      && py.Denotes(r, q) == (if i.argval.NameOperand? then i.argval else NameOperand(""))
      && r.arg.Some? && (py.nullMode.NoNull? || r.arg.value % 2 == 1)
  {
    hide Python.OperandOf, Python.GlobalArg;
    var n := if i.argval.NameOperand? then i.argval.name else "";
    var k := IndexOf(pools.names, n);
    var names := WithValue(pools.names, n);
    assert names[k] == n;
    GlobalArgument(py, k, pools.(names := names));
  }

  lemma GlobalArgument(py: Python, k: nat, pools: Pools)
    requires py.Valid() && k < |pools.names|
    ensures py.GlobalArg(k) >= 0 && (py.nullMode.NoNull? || py.GlobalArg(k) % 2 == 1)
    ensures py.OperandOf(py.loadGlobal, py.GlobalArg(k), pools) == NameOperand(pools.names[k])
  {
    assert py.GlobalArg(k) / py.GlobalScale() == k;
  }

  function Resolve(py: Python, instrs: seq<Instr>, pools: Pools): (seq<Instr>, Pools) {
    if instrs == [] then ([], pools)
    else
      var (head, p) := ResolveOne(py, instrs[0], pools);
      var (tail, q) := Resolve(py, instrs[1..], p);
      ([head] + tail, q)
  }

  lemma {:induction false} ResolveConcat(py: Python, a: seq<Instr>, b: seq<Instr>, pools: Pools)
    ensures var (ra, p) := Resolve(py, a, pools);
            var (rb, q) := Resolve(py, b, p);
            Resolve(py, a + b, pools) == (ra + rb, q)
  {
    hide ResolveOne;
    if a == [] {
      assert a + b == b;
      assert [] + Resolve(py, b, pools).0 == Resolve(py, b, pools).0;
    } else {
      var (head, p) := ResolveOne(py, a[0], pools);
      ResolveConcat(py, a[1..], b, p);
      assert (a + b)[0] == a[0] && (a + b)[1..] == a[1..] + b;
      var (ra, p1) := Resolve(py, a[1..], p);
      var (rb, q) := Resolve(py, b, p1);
      assert [head] + (ra + rb) == ([head] + ra) + rb;
      assert Resolve(py, a + b, pools) == ([head] + (ra + rb), q);
    }
  }

  lemma {:induction false} ResolveIdentity(py: Python, instrs: seq<Instr>, pools: Pools)
    requires AllResolved(py, instrs)
    ensures Resolve(py, instrs, pools) == (instrs, pools)
  {
    if instrs != [] {
      assert !Synthetic(py, instrs[0]);
      assert forall i :: 0 <= i < |instrs[1..]| ==> instrs[1..][i] == instrs[i + 1];
      ResolveIdentity(py, instrs[1..], pools);
      assert [instrs[0]] + instrs[1..] == instrs;
    }
  }

  method ResolveInstructionArguments(py: Python, original: Pools, instrs: seq<Instr>)
    returns (resolved: seq<Instr>, pools: CodePools)
    ensures fresh(pools)
    ensures (resolved, pools.View()) == Resolve(py, instrs, original)
  {
    pools := new CodePools(original);
    resolved := [];
    var i := 0;
    while i < |instrs|
      invariant 0 <= i <= |instrs| && fresh(pools)
      invariant (resolved, pools.View()) == Resolve(py, instrs[..i], original)
    {
      var instr := instrs[i];
      ghost var before := pools.View();
      var r := instr;
      if instr.op == py.loadConst && (instr.arg.None? || instr.arg.value < 0) {
        var v := if instr.argval.ConstOperand? then instr.argval.c else NoneConst;
        var index := pools.FindOrAppendConstant(v);
        r := instr.(arg := Some(index));
      } else if instr.op == py.loadGlobal && (instr.arg.None? || instr.arg.value < 0) {
        var name := if instr.argval.NameOperand? then instr.argval.name else "";
        var index := pools.FindOrAppendName(name);
        r := instr.(arg := Some(py.GlobalArg(index)));
      }
      assert (r, pools.View()) == ResolveOne(py, instr, before);
      ResolveConcat(py, instrs[..i], [instr], original);
      assert instrs[..i + 1] == instrs[..i] + [instr];
      assert Resolve(py, [instr][1..], pools.View()) == ([], pools.View());
      assert Resolve(py, [instr], before) == ([r] + [], pools.View());
      assert [r] + [] == [r];
      resolved := resolved + [r];
      i := i + 1;
    }
    assert instrs[..i] == instrs;
  }
}
