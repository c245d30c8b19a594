/**
  An injection followed through bytes and back: what the injected bytes mean, what stripping
  them gives, and exactly when.
 */
module RoundTrips {
  import opened Wrappers
  import opened Bytecode
  import opened Injector
  import opened InlineCaches
  import opened InjectionLimits
  import opened StackMachine
  import opened Stripper
  import opened Wordcode

  /** A real code object's bytes, one entry of `sites` for each instruction listed, and every
      index in the pools. */
  predicate Injectable(py: Python, code: seq<Byte>, pools: Pools, sites: seq<Option<int>>) {
    var instrs := Listed(py, code, 0, 0, pools);
    Regular(py, code, 0) && |sites| == |instrs| && InRange(py, instrs, pools)
  }

  /** The injection survives the trip through bytes; `InjectionLimits` says exactly when. */
  predicate Encodable(py: Python, code: seq<Byte>, pools: Pools, sites: seq<Option<int>>)
    requires Injectable(py, code, pools, sites)
  {
    Survives(py, Listed(py, code, 0, 0, pools), sites, Injected(py, code, pools, sites).1)
  }

  lemma EncodableDecodes(py: Python, code: seq<Byte>, pools: Pools, sites: seq<Option<int>>)
    requires py.Valid() && Injectable(py, code, pools, sites) && Encodable(py, code, pools, sites)
    ensures var (code', q) := Injected(py, code, pools, sites);
      var instrs := Decode(py, code, 0, 0, pools);
      && Listed(py, code, 0, 0, pools) == instrs && |sites| == |instrs| && Extends(pools, q)
      && Decode(py, code', 0, 0, q) == WeaveIn(py, q, instrs, sites)
      && (WeaveIn(py, q, instrs, sites), q) == Resolve(py, Weave(py, instrs, sites), pools)
      && InRange(py, instrs, pools) && AllResolved(py, instrs)
  {
    hide Decode, Listed, Weave, WeaveIn, Resolve, Encode;
    ListThenEncodeIff(py, code, pools);
    InjectedDecodes(py, code, pools, sites);
    ListedIsCanonical(py, code, 0, 0, pools);
    ResolveWeave(py, Listed(py, code, 0, 0, pools), sites, pools);
  }

  // ----- meaning --------------------------------------------------------------------

  /** What the interpreter does with the injected bytes is what it did with the original ones,
      with one report at each site passed, exactly when the helper's name is bound there. */
  lemma BytesMeaningIff<W(!new)>(
      py: Python, vm: VM<W>, code: seq<Byte>, pools: Pools, sites: seq<Option<int>>, c: Core<W>)
    requires py.Valid() && vm.ReservesHelper()
    requires Injectable(py, code, pools, sites) && Encodable(py, code, pools, sites)
    ensures var (code', q) := Injected(py, code, pools, sites);
      var instrs := Decode(py, code, 0, 0, pools);
      && |sites| == |instrs|
      && (Run(py, vm, Decode(py, code', 0, 0, q), q, c) == Observed(py, vm, instrs, sites, pools, c) <==>
          BoundAtSites(py, vm, instrs, sites, pools, c))
  {
    hide Run, Observed, BoundAtSites, Watched, Decode, Listed, Weave, WeaveIn, Resolve, Encodable, Injectable;
    EncodableDecodes(py, code, pools, sites);
    InjectionMeaningIff(py, vm, Decode(py, code, 0, 0, pools), sites, pools, c);
  }

  /** Where the helper is always bound, the outcome is that of the original bytes. */
  lemma BytesKeepMeaning<W(!new)>(
      py: Python, vm: VM<W>, code: seq<Byte>, pools: Pools, sites: seq<Option<int>>, c: Core<W>)
    requires py.Valid() && vm.BindsHelper()
    requires Injectable(py, code, pools, sites) && Encodable(py, code, pools, sites)
    ensures var (code', q) := Injected(py, code, pools, sites);
      var instrs := Decode(py, code, 0, 0, pools);
      && |sites| == |instrs|
      && Run(py, vm, Decode(py, code', 0, 0, q), q, c) == Observed(py, vm, instrs, sites, pools, c)
      && Run(py, vm, Decode(py, code', 0, 0, q), q, c).0 == Run(py, vm, instrs, pools, c).0
  {
    hide Run, Observed, Decode, Listed, Weave, WeaveIn, Resolve, Encodable, Injectable;
    EncodableDecodes(py, code, pools, sites);
    InjectionPreservesMeaning(py, vm, Decode(py, code, 0, 0, pools), sites, pools, c);
  }

  // ----- stripping ------------------------------------------------------------------

  predicate NoCacheOps(py: Python, instrs: seq<Instr>) {
    forall i :: 0 <= i < |instrs| ==> instrs[i].op != py.cache
  }

  lemma {:induction false} CacheFreeWoven(py: Python, pools: Pools, instrs: seq<Instr>, sites: seq<Option<int>>)
    requires py.Valid() && |sites| == |instrs| && CacheFree(py, instrs)
    requires HasSite(sites) ==> py.caches(py.loadGlobal) == 0 && py.caches(py.call) == 0
    ensures CacheFree(py, WeaveIn(py, pools, instrs, sites))
  {
    if instrs != [] {
      hide WeaveIn, CheckIn;
      CacheFreeWoven(py, pools, instrs[1..], sites[1..]);
      WovenTail(py, pools, instrs, sites);
      if sites[0].Some? {
        CacheFreeCheck(py, pools, sites[0].value, WeaveIn(py, pools, instrs[1..], sites[1..]));
      }
    }
  }

  lemma CacheFreeCheck(py: Python, pools: Pools, line: int, rest: seq<Instr>)
    requires py.Valid() && py.caches(py.loadGlobal) == 0 && py.caches(py.call) == 0 && CacheFree(py, rest)
    ensures CacheFree(py, CheckIn(py, pools, line) + rest)
  {
    var g, k := py.GlobalArg(IndexOf(pools.names, HELPER)), IndexOf(pools.consts, IntConst(line));
    CheckParts(py, line, g, k);
    assert CacheRun(py, py.loadGlobal) == [] && CacheRun(py, py.call) == [];
    var pop := [Instr(py.popTop, None, NoOperand)] + rest;
    var call := [Instr(py.call, Some(1), NoOperand)] + pop;
    var load := [LoadLineInstr(py, k, line)] + call;
    assert CheckIn(py, pools, line) + rest == [LoadHelperInstr(py, g)] + load;
    assert pop[1..] == rest && call[1..] == pop && load[1..] == call;
    assert ([LoadHelperInstr(py, g)] + load)[1..] == load;
    assert CacheFree(py, pop) && CacheFree(py, call) && CacheFree(py, load);
  }

  /** Without CACHE entries in the listing, code that nothing in it owes a slot to is listed as
      the interpreter reads it. */
  lemma {:induction false} CacheFreeIsListed(py: Python, code: seq<Byte>, prefix: int, pools: Pools)
    requires CacheFree(py, Decode(py, code, prefix, 0, pools))
    ensures Listed(py, code, prefix, 0, pools) == Decode(py, code, prefix, 0, pools)
  {
    if |code| >= 2 {
      var i := DecodeOne(py, code[0], code[1], prefix, pools);
      var d := Decode(py, code, prefix, 0, pools);
      assert d[0] == i && d[1..] == Decode(py, code[2..], NextPrefix(py, i), py.caches(i.op), pools);
      CacheFreeIsListed(py, code[2..], NextPrefix(py, i), pools);
    }
  }

  lemma InjectedIsListed(py: Python, code: seq<Byte>, pools: Pools, sites: seq<Option<int>>)
    requires py.Valid() && Injectable(py, code, pools, sites) && Encodable(py, code, pools, sites)
    ensures var (code', q) := Injected(py, code, pools, sites);
      Listed(py, code', 0, 0, q) == Decode(py, code', 0, 0, q)
  {
    hide Decode, Listed, Weave, WeaveIn, Resolve, Encode, CacheFree;
    var (code', q) := Injected(py, code, pools, sites);
    var instrs := Listed(py, code, 0, 0, pools);
    if py.listsCaches {
      ListedWithCaches(py, code', 0, 0, q);
    } else {
      EncodableDecodes(py, code, pools, sites);
      ListThenEncodeIff(py, code, pools);
      CacheFreeWoven(py, q, instrs, sites);
      CacheFreeIsListed(py, code', 0, q);
    }
  }

  /** Strip inverts inject down to bytes: list, inject, resolve, encode, list, strip, resolve
      and encode gives the original bytes; resolving the second time adds nothing. */
  lemma StripInvertsInject(py: Python, code: seq<Byte>, pools: Pools, sites: seq<Option<int>>)
    requires py.Valid() && Injectable(py, code, pools, sites) && Encodable(py, code, pools, sites)
    requires HasNoSequence(py, Listed(py, code, 0, 0, pools))
    ensures var (code', q) := Injected(py, code, pools, sites);
      var (r, q') := Resolve(py, Strip(py, Listed(py, code', 0, 0, q)), q);
      && r == Listed(py, code, 0, 0, pools) && q' == q
      && Encode(r) == code
  {
    hide Decode, Listed, Weave, WeaveIn, Resolve, Encode, Strip, HasNoSequence, Injected, Encodable;
    var instrs := Listed(py, code, 0, 0, pools);
    var q := Injected(py, code, pools, sites).1;
    EncodableDecodes(py, code, pools, sites);
    InjectedIsListed(py, code, pools, sites);
    StripWoven(py, q, instrs, sites);
    ResolveIdentity(py, instrs, q);
    ListThenEncodeIff(py, code, pools);
  }

  /** Code that already holds sequences, as after an earlier injection: removing gives what
      removing gave before, when no check is woven into one of them. */
  lemma StripAfterInjectIsStrip(py: Python, code: seq<Byte>, pools: Pools, sites: seq<Option<int>>)
    requires py.Valid() && Injectable(py, code, pools, sites) && Encodable(py, code, pools, sites)
    requires OutsideSequences(py, Listed(py, code, 0, 0, pools), sites)
    ensures var (code', q) := Injected(py, code, pools, sites);
      Strip(py, Listed(py, code', 0, 0, q)) == Strip(py, Listed(py, code, 0, 0, pools))
  {
    hide Decode, Listed, Weave, WeaveIn, Resolve, Encode, Strip, OutsideSequences, Injected, Encodable;
    EncodableDecodes(py, code, pools, sites);
    InjectedIsListed(py, code, pools, sites);
    StripWovenIsStrip(py, Injected(py, code, pools, sites).1, Listed(py, code, 0, 0, pools), sites);
  }

  // ----- a listing without CACHE entries --------------------------------------------

  lemma {:induction false} EncodedOps(py: Python, instrs: seq<Instr>, code: seq<Byte>, owed: nat)
    requires Regular(py, code, owed) && Encode(instrs) == code && NoCacheOps(py, instrs)
    ensures owed == 0 && CacheFree(py, instrs)
  {
    if instrs != [] {
      assert code[0] == instrs[0].op && code[2..] == Encode(instrs[1..]);
      assert instrs[0].op != py.cache;
      assert NoCacheOps(py, instrs[1..]) by {
        assert forall i :: 0 <= i < |instrs[1..]| ==> instrs[1..][i] == instrs[i + 1];
      }
      EncodedOps(py, instrs[1..], code[2..], py.caches(code[0]));
    }
  }

  /** The opcodes of the instructions listed from encoded instructions are among theirs. */
  lemma {:induction false} ListedOps(
      py: Python, instrs: seq<Instr>, prefix: int, owed: nat, pools: Pools)
    requires !py.listsCaches && NoCacheOps(py, instrs)
    ensures NoCacheOps(py, Listed(py, Encode(instrs), prefix, owed, pools))
  {
    if instrs != [] {
      var code := Encode(instrs);
      assert code[0] == instrs[0].op && code[2..] == Encode(instrs[1..]);
      assert forall i :: 0 <= i < |instrs[1..]| ==> instrs[1..][i] == instrs[i + 1];
      if owed > 0 {
        ListedOps(py, instrs[1..], 0, owed - 1, pools);
        assert [] + Listed(py, code[2..], 0, owed - 1, pools) == Listed(py, code[2..], 0, owed - 1, pools);
      } else {
        var i := DecodeOne(py, code[0], code[1], prefix, pools);
        ListedOps(py, instrs[1..], NextPrefix(py, i), py.caches(i.op), pools);
      }
    }
  }

  lemma {:induction false} RegularListing(py: Python, code: seq<Byte>, prefix: int, owed: nat, pools: Pools)
    requires py.Valid() && !py.listsCaches && Regular(py, code, owed)
    ensures NoCacheOps(py, Listed(py, code, prefix, owed, pools))
  {
    if code != [] {
      if owed > 0 {
        RegularListing(py, code[2..], 0, owed - 1, pools);
        assert [] + Listed(py, code[2..], 0, owed - 1, pools) == Listed(py, code[2..], 0, owed - 1, pools);
      } else {
        var i := DecodeOne(py, code[0], code[1], prefix, pools);
        RegularListing(py, code[2..], NextPrefix(py, i), py.caches(i.op), pools);
      }
    }
  }

  lemma {:induction false} StripOps(py: Python, s: seq<Instr>)
    requires NoCacheOps(py, s)
    ensures NoCacheOps(py, Strip(py, s))
    decreases |s|
  {
    if s != [] {
      var n := if Match(py, s) > 0 then Match(py, s) else 1;
      var rest := s[n..];
      assert forall i :: 0 <= i < |rest| ==> rest[i] == s[n + i];
      hide Match;
      StripOps(py, rest);
    }
  }

  lemma {:induction false} ResolvedOps(py: Python, s: seq<Instr>, pools: Pools)
    ensures var r := Resolve(py, s, pools).0;
      |r| == |s| && forall i :: 0 <= i < |s| ==> r[i].op == s[i].op
  {
    if s != [] {
      ResolvedOps(py, s[1..], ResolveOne(py, s[0], pools).1);
      assert forall i :: 0 <= i < |s[1..]| ==> s[1..][i] == s[i + 1];
    }
  }

  lemma {:induction false} WovenOps(py: Python, pools: Pools, instrs: seq<Instr>, sites: seq<Option<int>>)
    requires py.Valid() && !py.listsCaches && |sites| == |instrs| && NoCacheOps(py, instrs)
    ensures NoCacheOps(py, WeaveIn(py, pools, instrs, sites))
  {
    if instrs != [] {
      assert forall i :: 0 <= i < |instrs[1..]| ==> instrs[1..][i] == instrs[i + 1];
      WovenOps(py, pools, instrs[1..], sites[1..]);
      assert CacheRun(py, py.loadGlobal) == [] && CacheRun(py, py.call) == [];
    }
  }

  /** Where `dis` lists no CACHE entries, code in which any opcode has a cache slot never
      survives an injection and its removal, whatever the sites. */
  lemma UnlistedCachesAreLost(py: Python, code: seq<Byte>, pools: Pools, sites: seq<Option<int>>)
    requires py.Valid() && Injectable(py, code, pools, sites) && !py.listsCaches
    ensures var (code', q) := Injected(py, code, pools, sites);
      Encode(Resolve(py, Strip(py, Listed(py, code', 0, 0, q)), q).0) == code ==>
      CacheFree(py, Listed(py, code, 0, 0, pools))
  {
    hide Listed, Resolve, Strip, Weave, WeaveIn, Encode, CacheFree;
    var (code', q) := Injected(py, code, pools, sites);
    var instrs := Listed(py, code, 0, 0, pools);
    RegularListing(py, code, 0, 0, pools);
    ListedIsCanonical(py, code, 0, 0, pools);
    ResolveWeave(py, instrs, sites, pools);
    WovenOps(py, q, instrs, sites);
    ListedOps(py, WeaveIn(py, q, instrs, sites), 0, 0, q);
    var back := Listed(py, code', 0, 0, q);
    StripOps(py, back);
    ResolvedOps(py, Strip(py, back), q);
    var final := Resolve(py, Strip(py, back), q).0;
    if Encode(final) == code {
      EncodedOps(py, final, code, 0);
      SameOps(py, final, code, 0, pools);
    }
  }

  /** Listing what encodes to regular code without slots finds the same opcodes. */
  lemma {:induction false} SameOps(py: Python, instrs: seq<Instr>, code: seq<Byte>, prefix: int, pools: Pools)
    requires Encode(instrs) == code && CacheFree(py, instrs)
    ensures CacheFree(py, Listed(py, code, prefix, 0, pools))
  {
    if instrs != [] {
      assert code[0] == instrs[0].op && code[2..] == Encode(instrs[1..]);
      var i := DecodeOne(py, code[0], code[1], prefix, pools);
      SameOps(py, instrs[1..], code[2..], NextPrefix(py, i), pools);
      assert i.op == instrs[0].op;
      var l := Listed(py, code, prefix, 0, pools);
      assert l[0] == i && l[1..] == Listed(py, code[2..], NextPrefix(py, i), 0, pools);
    }
  }

  /** Other limits apart, injecting and removing gives the bytes back exactly when CACHE entries
      are listed or no opcode of the code has any. */
  lemma RoundTripIff(py: Python, code: seq<Byte>, pools: Pools, sites: seq<Option<int>>)
    requires py.Valid() && Injectable(py, code, pools, sites)
    requires HasNoSequence(py, Listed(py, code, 0, 0, pools))
    requires var instrs := Listed(py, code, 0, 0, pools);
      && !SplitsCaches(py, instrs, sites, 0) && (HasSite(sites) ==> py.EmitsCaches())
      && KeepsPrefixes(py, instrs, sites) && AllFit(py, Injected(py, code, pools, sites).1, sites)
    ensures var (code', q) := Injected(py, code, pools, sites);
      Encode(Resolve(py, Strip(py, Listed(py, code', 0, 0, q)), q).0) == code <==>
      ListsEverything(py, Listed(py, code, 0, 0, pools))
  {
    hide Listed, Resolve, Strip, Weave, WeaveIn, Encode, CacheFree, Injected, HasNoSequence, SplitsCaches, HasSite, KeepsPrefixes, AllFit;
    ListThenEncodeIff(py, code, pools);
    if ListsEverything(py, Listed(py, code, 0, 0, pools)) {
      StripInvertsInject(py, code, pools, sites);
    } else {
      UnlistedCachesAreLost(py, code, pools, sites);
    }
  }

  // ----- a check by itself ----------------------------------------------------------

  /** Instructions other than calls report nothing. */
  lemma {:induction false} NoCallNoReport<W(!new)>(
      py: Python, vm: VM<W>, instrs: seq<Instr>, pools: Pools, c: Core<W>)
    requires forall i :: 0 <= i < |instrs| ==> instrs[i].op != py.call
    ensures Run(py, vm, instrs, pools, c).1 == []
  {
    if instrs != [] {
      var (o, hits) := Step(py, vm, instrs[0], pools, c);
      assert hits == [];
      if o.Running? {
        NoCallNoReport(py, vm, instrs[1..], pools, o.core);
      }
    }
  }

  /** A check whose opcodes got no CACHE entries, as the interpreter reads it. */
  lemma BareCheck(py: Python, pools: Pools, line: int)
    requires py.Valid() && !py.cachesByOpcode && Supplies(pools, line) && Fits(py, pools, line)
    ensures var a, b := py.caches(py.loadGlobal), py.caches(py.call);
      var lg := LoadHelperInstr(py, py.GlobalArg(IndexOf(pools.names, HELPER)));
      var lc := LoadLineInstr(py, IndexOf(pools.consts, IntConst(line)), line);
      var call, pop := Instr(py.call, Some(1), NoOperand), Instr(py.popTop, None, NoOperand);
      Decode(py, Encode(CheckIn(py, pools, line)), 0, 0, pools) ==
      [lg] + (if a == 0 then [lc, call] + (if b == 0 then [pop] else Slots(py, b))
              else if a == 1 then [CacheInstr(py), call] + (if b == 0 then [pop] else Slots(py, b))
              else if a == 2 then [CacheInstr(py), CacheInstr(py), pop]
              else Slots(py, a))
  {
    var a, b := py.caches(py.loadGlobal), py.caches(py.call);
    var g, k := py.GlobalArg(IndexOf(pools.names, HELPER)), IndexOf(pools.consts, IntConst(line));
    var lg, lc := LoadHelperInstr(py, g), LoadLineInstr(py, k, line);
    var call, pop := Instr(py.call, Some(1), NoOperand), Instr(py.popTop, None, NoOperand);
    assert py.OperandOf(py.loadGlobal, g, pools) == NameOperand(HELPER);
    assert CanonicalOne(py, lg, 0, pools) && CanonicalOne(py, lc, 0, pools);
    assert CacheRun(py, py.loadGlobal) == [] && CacheRun(py, py.call) == [];
    CheckParts(py, line, g, k);
    assert CheckIn(py, pools, line) == [lg] + ([lc] + ([call] + ([pop] + [])));
    assert NextPrefix(py, lg) == NextPrefix(py, lc) == NextPrefix(py, call) == NextPrefix(py, pop) == 0;
    BareDecode(py, pools, lg, lc, call, pop);
  }

  lemma DecodeCons(py: Python, i: Instr, rest: seq<Instr>, owed: nat, pools: Pools)
    requires py.Valid() && CanonicalOne(py, i, 0, pools) && NextPrefix(py, i) == 0
    ensures Decode(py, Encode([i] + rest), 0, owed, pools) ==
      if owed > 0 then [CacheInstr(py)] + Decode(py, Encode(rest), 0, owed - 1, pools)
      else [i] + Decode(py, Encode(rest), 0, py.caches(i.op), pools)
  {
    var code := Encode([i] + rest);
    assert ([i] + rest)[1..] == rest;
    assert code[0] == i.op && code[1] == ArgByte(i) && code[2..] == Encode(rest);
    DecodeOneIff(py, i, 0, pools);
  }

  /** The last of them, read after `owed` slots that nothing has filled. */
  lemma BarePop(py: Python, pools: Pools, pop: Instr, owed: nat)
    requires py.Valid() && py.caches(pop.op) == 0 && CanonicalOne(py, pop, 0, pools) && NextPrefix(py, pop) == 0
    ensures Decode(py, Encode([pop] + []), 0, owed, pools) == if owed == 0 then [pop] else Slots(py, owed)
  {
    DecodeNothing(py, pools, if owed == 0 then 0 else owed - 1);
    SlotsCons(py, owed);
    hide Decode, Encode, CanonicalOne, NextPrefix, Slots;
    DecodeCons(py, pop, [], owed, pools);
    assert [pop] + [] == [pop];
  }

  /** The last two, read after `owed` slots that nothing has filled. */
  lemma BareCall(py: Python, pools: Pools, call: Instr, pop: Instr, owed: nat)
    requires py.Valid() && py.caches(pop.op) == 0
    requires CanonicalOne(py, pop, 0, pools) && NextPrefix(py, pop) == 0
    requires CanonicalOne(py, call, 0, pools) && NextPrefix(py, call) == 0
    ensures var b := py.caches(call.op);
      Decode(py, Encode([call] + ([pop] + [])), 0, owed, pools) ==
      if owed == 0 then [call] + (if b == 0 then [pop] else Slots(py, b))
      else if owed == 1 then [CacheInstr(py), pop]
      else Slots(py, owed)
  {
    hide Decode, Encode, CanonicalOne, NextPrefix, Slots;
    DecodeCons(py, call, [pop] + [], owed, pools);
    BarePop(py, pools, pop, if owed == 0 then py.caches(call.op) else owed - 1);
    SlotsCons(py, owed);
    assert [CacheInstr(py)] + [pop] == [CacheInstr(py), pop];
  }

  /** Four instructions, only the first and third of which have slots, without their entries. */
  lemma BareDecode(py: Python, pools: Pools, lg: Instr, lc: Instr, call: Instr, pop: Instr)
    requires py.Valid() && py.caches(lc.op) == 0 && py.caches(pop.op) == 0
    requires forall i :: i in {lg, lc, call, pop} ==> CanonicalOne(py, i, 0, pools) && NextPrefix(py, i) == 0
    ensures var a, b := py.caches(lg.op), py.caches(call.op);
      Decode(py, Encode([lg] + ([lc] + ([call] + ([pop] + [])))), 0, 0, pools) ==
      [lg] + (if a == 0 then [lc, call] + (if b == 0 then [pop] else Slots(py, b))
              else if a == 1 then [CacheInstr(py), call] + (if b == 0 then [pop] else Slots(py, b))
              else if a == 2 then [CacheInstr(py), CacheInstr(py), pop]
              else Slots(py, a))
  {
    hide Decode, Encode, CanonicalOne, NextPrefix, Slots;
    var a, b := py.caches(lg.op), py.caches(call.op);
    var cache, fromCall := CacheInstr(py), [call] + ([pop] + []);
    DecodeCons(py, lg, [lc] + fromCall, 0, pools);
    DecodeCons(py, lc, fromCall, a, pools);
    BareCall(py, pools, call, pop, if a == 0 then 0 else a - 1);
    var last := if b == 0 then [pop] else Slots(py, b);
    if a < 2 {
      assert [lc] + ([call] + last) == [lc, call] + last && [cache] + ([call] + last) == [cache, call] + last;
    } else if a == 2 {
      assert [cache] + [cache, pop] == [cache, cache, pop];
    } else {
      SlotsCons(py, a);
    }
  }

  lemma DecodeNothing(py: Python, pools: Pools, owed: nat)
    ensures Decode(py, Encode([]), 0, owed, pools) == Slots(py, owed) && Slots(py, 0) == []
  {
  }

  lemma SlotsCons(py: Python, n: nat)
    ensures n > 0 ==> Slots(py, n) == [CacheInstr(py)] + Slots(py, n - 1)
  {
  }

  lemma {:induction false} SlotsAreCaches(py: Python, n: nat)
    ensures forall i :: 0 <= i < |Slots(py, n)| ==> Slots(py, n)[i] == CacheInstr(py)
  {
    if n > 0 {
      SlotsAreCaches(py, n - 1);
    }
  }

  /** The bytes of a check are neutral, as the interpreter reads them, exactly when the injector
      gave its opcodes the CACHE entries that the interpreter skips: otherwise the load of the
      line, the call or the final pop is skipped in their place. */
  lemma CheckNeutralIff<W(!new)>(py: Python, vm: VM<W>, pools: Pools, line: int, c: Core<W>)
    requires py.Valid() && vm.BindsHelper() && Supplies(pools, line) && Fits(py, pools, line)
    ensures var read := Decode(py, Encode(CheckIn(py, pools, line)), 0, 0, pools);
      Run(py, vm, read, pools, c) == (Running(c), [ConstValue(IntConst(line))]) <==> py.EmitsCaches()
  {
    var check := CheckIn(py, pools, line);
    if py.EmitsCaches() {
      AlignedCheck(py, pools, line, [], 0);
      assert check + [] == check;
      CheckIsCanonical(py, pools, line);
      CanonicalFlat(py, check, [], pools);
      DecodeEncodeIff(py, check, 0, 0, pools);
      CheckIsNeutral(py, vm, pools, line, c);
    } else {
      BareCheck(py, pools, line);
      BareCheckFails(py, vm, pools, line, c);
    }
  }

  lemma BareCheckFails<W(!new)>(py: Python, vm: VM<W>, pools: Pools, line: int, c: Core<W>)
    requires py.Valid() && vm.BindsHelper() && Supplies(pools, line)
    requires py.caches(py.loadGlobal) > 0 || py.caches(py.call) > 0
    ensures var a, b := py.caches(py.loadGlobal), py.caches(py.call);
      var lg := LoadHelperInstr(py, py.GlobalArg(IndexOf(pools.names, HELPER)));
      var lc := LoadLineInstr(py, IndexOf(pools.consts, IntConst(line)), line);
      var call, pop := Instr(py.call, Some(1), NoOperand), Instr(py.popTop, None, NoOperand);
      Run(py, vm,
          [lg] + (if a == 0 then [lc, call] + (if b == 0 then [pop] else Slots(py, b))
                  else if a == 1 then [CacheInstr(py), call] + (if b == 0 then [pop] else Slots(py, b))
                  else if a == 2 then [CacheInstr(py), CacheInstr(py), pop]
                  else Slots(py, a)), pools, c) != (Running(c), [ConstValue(IntConst(line))])
  {
    var a, b := py.caches(py.loadGlobal), py.caches(py.call);
    var v := ConstValue(IntConst(line));
    var lg := LoadHelperInstr(py, py.GlobalArg(IndexOf(pools.names, HELPER)));
    var lc := LoadLineInstr(py, IndexOf(pools.consts, IntConst(line)), line);
    var call, pop := Instr(py.call, Some(1), NoOperand), Instr(py.popTop, None, NoOperand);
    LoadHelper(py, vm, pools, c);
    SlotsAreCaches(py, a);
    SlotsAreCaches(py, b);
    if a == 0 {
      BareCallKeepsNone(py, vm, pools, lg, lc, call, Slots(py, b), v, c);
      assert [lg] + ([lc, call] + Slots(py, b)) == [lg] + ([lc] + ([call] + Slots(py, b)));
    } else if a == 1 {
      var rest := if b == 0 then [pop] else Slots(py, b);
      CallWithoutLine(py, vm, pools, lg, call, rest, v, c);
    } else {
      NoCallNoReport(py, vm, [lg] + (if a == 2 then [CacheInstr(py), CacheInstr(py), pop] else Slots(py, a)), pools, c);
    }
  }

  /** The pop is skipped: the helper's None stays on the stack. */
  lemma BareCallKeepsNone<W(!new)>(
      py: Python, vm: VM<W>, pools: Pools, lg: Instr, lc: Instr, call: Instr, caches: seq<Instr>, v: Value, c: Core<W>)
    requires py.Valid() && call == Instr(py.call, Some(1), NoOperand)
    requires Step(py, vm, lg, pools, c) == (Running(c.(stack := c.stack + Callable(py, Helper))), [])
    requires lc.op == py.loadConst && v.ConstValue? && py.Denotes(lc, pools) == ConstOperand(v.c)
    requires forall i :: 0 <= i < |caches| ==> caches[i] == CacheInstr(py)
    ensures Run(py, vm, [lg] + ([lc] + ([call] + caches)), pools, c)
            == (Running(c.(stack := c.stack + [ConstValue(NoneConst)])), [v])
    ensures Run(py, vm, [lg] + ([lc] + ([call] + caches)), pools, c) != (Running(c), [v])
  {
    var c1 := c.(stack := c.stack + Callable(py, Helper));
    var c2 := c1.(stack := c1.stack + [v]);
    var c3 := c.(stack := c.stack + [ConstValue(NoneConst)]);
    RunOne(py, vm, lg, pools, c);
    RunAfterSilent(py, vm, [lg], [lc] + ([call] + caches), pools, c, c1);
    RunOne(py, vm, lc, pools, c1);
    RunAfterSilent(py, vm, [lc], [call] + caches, pools, c1, c2);
    CallHelper(py, vm, pools, v, c);
    RunOne(py, vm, call, pools, c2);
    RunConcat(py, vm, [call], caches, pools, c2);
    RunCaches(py, vm, caches, pools, c3);
    assert |c3.stack| != |c.stack|;
  }

  /** The load of the line is skipped: whatever the call does, it does not report the line. */
  lemma CallWithoutLine<W(!new)>(
      py: Python, vm: VM<W>, pools: Pools, lg: Instr, call: Instr, rest: seq<Instr>, v: Value, c: Core<W>)
    requires py.Valid() && call == Instr(py.call, Some(1), NoOperand) && v.ConstValue?
    requires Step(py, vm, lg, pools, c) == (Running(c.(stack := c.stack + Callable(py, Helper))), [])
    requires forall i :: 0 <= i < |rest| ==> rest[i].op != py.call
    ensures Run(py, vm, [lg] + ([CacheInstr(py), call] + rest), pools, c).1 != [v]
  {
    var c1 := c.(stack := c.stack + Callable(py, Helper));
    var cache := CacheInstr(py);
    assert [cache, call] + rest == [cache] + ([call] + rest);
    RunOne(py, vm, lg, pools, c);
    RunAfterSilent(py, vm, [lg], [cache] + ([call] + rest), pools, c, c1);
    RunCaches(py, vm, [cache], pools, c1);
    RunAfterSilent(py, vm, [cache], [call] + rest, pools, c1, c1);
    RunOne(py, vm, call, pools, c1);
    RunConcat(py, vm, [call], rest, pools, c1);
    var (o, hits) := Step(py, vm, call, pools, c1);
    assert hits == [] || hits == [c1.stack[|c1.stack| - 1]];
    assert c1.stack[|c1.stack| - 1] in {Helper, Null};
    NoCallNoReport(py, vm, rest, pools, o.core);
  }
}
