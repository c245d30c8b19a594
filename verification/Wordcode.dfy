/**
  The two-byte wordcode format: encoding, decoding with EXTENDED_ARG prefixes and inline
  caches as the interpreter reads them, and listing as `get_instructions` does.
 */
module Wordcode {
  import opened Wrappers
  import opened Bytecode
  import opened Injector

  function ArgByte(i: Instr): Byte {
    if i.arg.Some? then i.arg.value % 256 else 0
  }

  function Encode(instrs: seq<Instr>): (code: seq<Byte>)
    ensures |code| == 2 * |instrs|
  {
    if instrs == [] then [] else [instrs[0].op, ArgByte(instrs[0])] + Encode(instrs[1..])
  }

  lemma {:induction false} EncodeConcat(a: seq<Instr>, b: seq<Instr>)
    ensures Encode(a + b) == Encode(a) + Encode(b)
  {
    if a == [] {
      assert a + b == b;
    } else {
      EncodeConcat(a[1..], b);
      assert (a + b)[0] == a[0] && (a + b)[1..] == a[1..] + b;
      var word := [a[0].op, ArgByte(a[0])];
      assert word + (Encode(a[1..]) + Encode(b)) == (word + Encode(a[1..])) + Encode(b);
    }
  }

  method EncodeInstructions(instrs: seq<Instr>) returns (code: seq<Byte>)
    ensures code == Encode(instrs)
  {
    code := [];
    var i := 0;
    while i < |instrs|
      invariant 0 <= i <= |instrs|
      invariant code == Encode(instrs[..i])
    {
      EncodeConcat(instrs[..i], [instrs[i]]);
      assert instrs[..i + 1] == instrs[..i] + [instrs[i]];
      assert Encode([instrs[i]]) == [instrs[i].op, ArgByte(instrs[i])];
      code := code + [instrs[i].op];
      code := code + [ArgByte(instrs[i])];
      i := i + 1;
    }
    assert instrs[..i] == instrs;
  }

  /** Word i holds the opcode of instruction i, then the low byte of its argument or 0. */
  lemma {:induction false} EncodedAt(instrs: seq<Instr>, i: nat)
    requires i < |instrs|
    ensures Encode(instrs)[2 * i] == instrs[i].op
    ensures Encode(instrs)[2 * i + 1] == match instrs[i].arg case None => 0 case Some(arg) => arg % 256
  {
    if i > 0 {
      EncodedAt(instrs[1..], i - 1);
    }
  }

  /** The prefix that an instruction contributes to the argument of the next one. */
  function NextPrefix(py: Python, i: Instr): int {
    if i.op == py.extendedArg && i.arg.Some? then i.arg.value * 256 else 0
  }

  function DecodeOne(py: Python, op: Byte, b: Byte, prefix: int, pools: Pools): Instr {
    if op == py.cache then CacheInstr(py)
    else if py.hasArg(op) then Instr(op, Some(prefix + b), py.OperandOf(op, prefix + b, pools))
    else Instr(op, None, NoOperand)
  }

  function Slots(py: Python, n: nat): seq<Instr> {
    if n == 0 then [] else [CacheInstr(py)] + Slots(py, n - 1)
  }

  /** How the interpreter reads bytes: after an opcode it skips as many words as the opcode
      has cache slots, shown here as CACHE entries whatever the words hold.  `owed` slots are
      still to be skipped. */
  function Decode(py: Python, code: seq<Byte>, prefix: int, owed: nat, pools: Pools): seq<Instr> {
    if |code| < 2 then Slots(py, owed)
    else if owed > 0 then [CacheInstr(py)] + Decode(py, code[2..], 0, owed - 1, pools)
    else
      var i := DecodeOne(py, code[0], code[1], prefix, pools);
      [i] + Decode(py, code[2..], NextPrefix(py, i), py.caches(i.op), pools)
  }

  /** What `get_instructions` returns: the same, with CACHE entries only where `dis` lists them. */
  function Listed(py: Python, code: seq<Byte>, prefix: int, owed: nat, pools: Pools): seq<Instr> {
    if |code| < 2 then (if py.listsCaches then Slots(py, owed) else [])
    else if owed > 0 then
      (if py.listsCaches then [CacheInstr(py)] else []) + Listed(py, code[2..], 0, owed - 1, pools)
    else
      var i := DecodeOne(py, code[0], code[1], prefix, pools);
      [i] + Listed(py, code[2..], NextPrefix(py, i), py.caches(i.op), pools)
  }

  /** Each EXTENDED_ARG before an opcode puts one more byte in front of its argument, and none
      is carried past that opcode. */
  lemma WideArguments(py: Python, a: Byte, b: Byte, c: Byte, op: Byte, rest: seq<Byte>, pools: Pools)
    requires py.Valid() && op != py.cache && op != py.extendedArg && py.hasArg(op)
    ensures var ext := py.extendedArg;
      && Decode(py, [op, c] + rest, 0, 0, pools) ==
         [Instr(op, Some(c as int), py.OperandOf(op, c, pools))] + Decode(py, rest, 0, py.caches(op), pools)
      && Decode(py, [ext, b, op, c] + rest, 0, 0, pools) ==
         [Instr(ext, Some(b as int), NoOperand),
          Instr(op, Some(b as int * 256 + c), py.OperandOf(op, b as int * 256 + c, pools))]
         + Decode(py, rest, 0, py.caches(op), pools)
      && Decode(py, [ext, a, ext, b, op, c] + rest, 0, 0, pools) ==
         [Instr(ext, Some(a as int), NoOperand), Instr(ext, Some(a as int * 256 + b), NoOperand),
          Instr(op, Some(a as int * 65536 + b as int * 256 + c),
                py.OperandOf(op, a as int * 65536 + b as int * 256 + c, pools))]
         + Decode(py, rest, 0, py.caches(op), pools)
  {
    var ext := py.extendedArg;
    assert py.kind(ext) == Plain;
    DecodeStep(py, op, c, rest, 0, pools);
    DecodeStep(py, ext, b, [op, c] + rest, 0, pools);
    DecodeStep(py, op, c, rest, b as int * 256, pools);
    DecodeStep(py, ext, a, [ext, b, op, c] + rest, 0, pools);
    DecodeStep(py, ext, b, [op, c] + rest, a as int * 256, pools);
    DecodeStep(py, op, c, rest, (a as int * 256 + b) * 256, pools);
    hide Decode;
    assert [ext, b, op, c] + rest == [ext, b] + ([op, c] + rest);
    assert [ext, a, ext, b, op, c] + rest == [ext, a] + ([ext, b, op, c] + rest);
  }

  lemma DecodeStep(py: Python, op: Byte, b: Byte, rest: seq<Byte>, prefix: int, pools: Pools)
    requires py.Valid() && op != py.cache && py.hasArg(op)
    ensures var arg := prefix + b as int;
      Decode(py, [op, b] + rest, prefix, 0, pools) ==
      [Instr(op, Some(arg), py.OperandOf(op, arg, pools))]
      + Decode(py, rest, if op == py.extendedArg then arg * 256 else 0, py.caches(op), pools)
  {
    assert ([op, b] + rest)[2..] == rest;
  }

  // ----- lists that read back -------------------------------------------------------

  /** `i` is what its own two bytes decode to. */
  predicate CanonicalOne(py: Python, i: Instr, prefix: int, pools: Pools) {
    if i.op == py.cache then i == CacheInstr(py)
    else if py.hasArg(i.op) then
      i.arg.Some? && prefix <= i.arg.value < prefix + 256 && i.argval == py.OperandOf(i.op, i.arg.value, pools)
    else i.arg == None && i.argval == NoOperand
  }

  predicate Canonical(py: Python, instrs: seq<Instr>, prefix: int, pools: Pools) {
    instrs == []
    || (CanonicalOne(py, instrs[0], prefix, pools)
        && Canonical(py, instrs[1..], NextPrefix(py, instrs[0]), pools))
  }

  /** Cache slots owed after an instruction when `owed` were owed before it. */
  function Owed(py: Python, op: Byte, owed: nat): nat {
    if owed > 0 then owed - 1 else py.caches(op)
  }

  /** Every opcode is followed by exactly its CACHE entries. */
  predicate Aligned(py: Python, instrs: seq<Instr>, owed: nat) {
    if instrs == [] then owed == 0
    else (owed > 0 ==> instrs[0] == CacheInstr(py)) && Aligned(py, instrs[1..], Owed(py, instrs[0].op, owed))
  }

  lemma SameHeadAndTail<T>(s: seq<T>, t: seq<T>)
    requires s != [] && t != []
    ensures s == t <==> s[0] == t[0] && s[1..] == t[1..]
  {
    assert s == [s[0]] + s[1..] && t == [t[0]] + t[1..];
  }

  lemma DecodeOneIff(py: Python, i: Instr, prefix: int, pools: Pools)
    requires py.Valid() && prefix % 256 == 0
    ensures DecodeOne(py, i.op, ArgByte(i), prefix, pools) == i <==> CanonicalOne(py, i, prefix, pools)
    ensures py.caches(i.op) > 0 ==> NextPrefix(py, i) == 0
    ensures NextPrefix(py, i) % 256 == 0 && NextPrefix(py, CacheInstr(py)) == 0
  {
  }

  /** A list decodes back from its own bytes exactly when every instruction fits its two bytes
      and every opcode is followed by exactly its CACHE entries. */
  lemma {:induction false} DecodeEncodeIff(py: Python, instrs: seq<Instr>, prefix: int, owed: nat, pools: Pools)
    requires py.Valid() && prefix % 256 == 0 && (owed > 0 ==> prefix == 0)
    ensures Decode(py, Encode(instrs), prefix, owed, pools) == instrs <==>
            Canonical(py, instrs, prefix, pools) && Aligned(py, instrs, owed)
  {
    if instrs != [] {
      hide DecodeOne, CanonicalOne, NextPrefix, ArgByte;
      var i := instrs[0];
      var code := Encode(instrs);
      assert code[0] == i.op && code[1] == ArgByte(i) && code[2..] == Encode(instrs[1..]);
      var d := Decode(py, code, prefix, owed, pools);
      SameHeadAndTail(d, instrs);
      DecodeOneIff(py, i, prefix, pools);
      CacheIsCanonical(py, prefix, pools);
      if owed > 0 {
        DecodeEncodeIff(py, instrs[1..], 0, owed - 1, pools);
      } else {
        DecodeEncodeIff(py, instrs[1..], NextPrefix(py, i), py.caches(i.op), pools);
      }
    }
  }

  lemma CacheIsCanonical(py: Python, prefix: int, pools: Pools)
    ensures CanonicalOne(py, CacheInstr(py), prefix, pools)
  {
  }

  // ----- what is listed -------------------------------------------------------------

  lemma {:induction false} SlotsAreCanonical(py: Python, n: nat, pools: Pools)
    requires py.Valid()
    ensures Canonical(py, Slots(py, n), 0, pools) && AllResolved(py, Slots(py, n)) && Aligned(py, Slots(py, n), n)
  {
    if n > 0 {
      SlotsAreCanonical(py, n - 1, pools);
    }
  }

  lemma ConsResolved(py: Python, i: Instr, rest: seq<Instr>)
    requires !Synthetic(py, i) && AllResolved(py, rest)
    ensures AllResolved(py, [i] + rest)
  {
  }

  lemma {:induction false} ListedIsCanonical(py: Python, code: seq<Byte>, prefix: int, owed: nat, pools: Pools)
    requires py.Valid() && prefix >= 0 && prefix % 256 == 0 && (owed > 0 ==> prefix == 0)
    ensures Canonical(py, Listed(py, code, prefix, owed, pools), prefix, pools)
    ensures AllResolved(py, Listed(py, code, prefix, owed, pools))
  {
    if |code| < 2 {
      SlotsAreCanonical(py, owed, pools);
    } else {
      hide Canonical, AllResolved;
      if owed > 0 {
        ListedIsCanonical(py, code[2..], 0, owed - 1, pools);
        var rest := Listed(py, code[2..], 0, owed - 1, pools);
        CanonicalCons(py, CacheInstr(py), rest, prefix, pools);
        ConsResolved(py, CacheInstr(py), rest);
        assert [] + rest == rest;
      } else {
        var i := DecodeOne(py, code[0], code[1], prefix, pools);
        ListedIsCanonical(py, code[2..], NextPrefix(py, i), py.caches(i.op), pools);
        var rest := Listed(py, code[2..], NextPrefix(py, i), py.caches(i.op), pools);
        CanonicalCons(py, i, rest, prefix, pools);
        ConsResolved(py, i, rest);
      }
    }
  }

  lemma CanonicalCons(py: Python, i: Instr, rest: seq<Instr>, prefix: int, pools: Pools)
    requires CanonicalOne(py, i, prefix, pools) && Canonical(py, rest, NextPrefix(py, i), pools)
    ensures Canonical(py, [i] + rest, prefix, pools)
  {
    assert ([i] + rest)[1..] == rest;
  }

  /** No opcode of the list has a cache slot. */
  predicate CacheFree(py: Python, instrs: seq<Instr>) {
    instrs == [] || (py.caches(instrs[0].op) == 0 && CacheFree(py, instrs[1..]))
  }

  /** The code of a real code object: whole words, cleared words in all cache slots and CACHE
      nowhere else, and a zero byte after every opcode without an argument. */
  predicate Regular(py: Python, code: seq<Byte>, owed: nat) {
    if code == [] then owed == 0
    else
      |code| >= 2
      && (if owed > 0 then code[0] == py.cache && code[1] == 0 && Regular(py, code[2..], owed - 1)
          else code[0] != py.cache && (!py.hasArg(code[0]) ==> code[1] == 0)
               && Regular(py, code[2..], py.caches(code[0])))
  }

  lemma {:induction false} EncodeDecode(py: Python, code: seq<Byte>, prefix: int, owed: nat, pools: Pools)
    requires py.Valid() && Regular(py, code, owed) && prefix % 256 == 0 && (owed > 0 ==> prefix == 0)
    ensures Encode(Decode(py, code, prefix, owed, pools)) == code
    ensures Aligned(py, Decode(py, code, prefix, owed, pools), owed)
  {
    if code != [] {
      var i := if owed > 0 then CacheInstr(py) else DecodeOne(py, code[0], code[1], prefix, pools);
      assert i.op == code[0] && ArgByte(i) == code[1];
      var next := Owed(py, code[0], owed);
      EncodeDecode(py, code[2..], NextPrefix(py, i), next, pools);
      var rest := Decode(py, code[2..], NextPrefix(py, i), next, pools);
      assert ([i] + rest)[1..] == rest;
      assert code == [code[0], code[1]] + code[2..];
    }
  }

  lemma {:induction false} ListedWithCaches(py: Python, code: seq<Byte>, prefix: int, owed: nat, pools: Pools)
    requires py.listsCaches
    ensures Listed(py, code, prefix, owed, pools) == Decode(py, code, prefix, owed, pools)
  {
    if |code| >= 2 {
      if owed > 0 {
        ListedWithCaches(py, code[2..], 0, owed - 1, pools);
      } else {
        var i := DecodeOne(py, code[0], code[1], prefix, pools);
        ListedWithCaches(py, code[2..], NextPrefix(py, i), py.caches(i.op), pools);
      }
    }
  }

  /** Without CACHE entries in the listing, it is as long as the code exactly when nothing in
      the code has a cache slot. */
  lemma {:induction false} ListedWithoutCaches(py: Python, code: seq<Byte>, prefix: int, owed: nat, pools: Pools)
    requires py.Valid() && !py.listsCaches && Regular(py, code, owed)
    ensures var l := Listed(py, code, prefix, owed, pools);
      && 2 * |l| <= |code|
      && (2 * |l| == |code| <==> owed == 0 && CacheFree(py, l))
      && (2 * |l| == |code| ==> l == Decode(py, code, prefix, owed, pools))
      && (Aligned(py, l, owed) ==> owed == 0 && CacheFree(py, l))
      && (l != [] ==> l[0].op != py.cache)
  {
    if code != [] {
      if owed > 0 {
        ListedWithoutCaches(py, code[2..], 0, owed - 1, pools);
        assert [] + Listed(py, code[2..], 0, owed - 1, pools) == Listed(py, code[2..], 0, owed - 1, pools);
      } else {
        var i := DecodeOne(py, code[0], code[1], prefix, pools);
        ListedWithoutCaches(py, code[2..], NextPrefix(py, i), py.caches(i.op), pools);
        var rest := Listed(py, code[2..], NextPrefix(py, i), py.caches(i.op), pools);
        assert ([i] + rest)[1..] == rest;
      }
    }
  }

  /** Whether the listing shows everything the interpreter skips. */
  predicate ListsEverything(py: Python, instrs: seq<Instr>) {
    py.listsCaches || CacheFree(py, instrs)
  }

  lemma {:induction false} CacheFreeIsAligned(py: Python, instrs: seq<Instr>)
    requires CacheFree(py, instrs)
    ensures Aligned(py, instrs, 0)
  {
    if instrs != [] {
      CacheFreeIsAligned(py, instrs[1..]);
    }
  }

  /** Listing and encoding give the bytes back exactly when CACHE entries are listed or no
      opcode of the code has any; and exactly then the listing is what the interpreter reads. */
  lemma ListThenEncodeIff(py: Python, code: seq<Byte>, pools: Pools)
    requires py.Valid() && Regular(py, code, 0)
    ensures var l := Listed(py, code, 0, 0, pools);
      && (Encode(l) == code <==> ListsEverything(py, l))
      && (l == Decode(py, code, 0, 0, pools) <==> ListsEverything(py, l))
      && (Aligned(py, l, 0) <==> ListsEverything(py, l))
  {
    var l := Listed(py, code, 0, 0, pools);
    EncodeDecode(py, code, 0, 0, pools);
    if py.listsCaches {
      ListedWithCaches(py, code, 0, 0, pools);
    } else {
      ListedWithoutCaches(py, code, 0, 0, pools);
      if CacheFree(py, l) {
        CacheFreeIsAligned(py, l);
      }
    }
  }

  // ----- injection on bytes ---------------------------------------------------------

  /** The bytes and pools of the code object built by one injection. */
  function Injected(py: Python, code: seq<Byte>, pools: Pools, sites: seq<Option<int>>): (seq<Byte>, Pools)
    requires |sites| == |Listed(py, code, 0, 0, pools)|
  {
    var (r, q) := Resolve(py, Weave(py, Listed(py, code, 0, 0, pools), sites), pools);
    (Encode(r), q)
  }
}
