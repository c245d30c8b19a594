/** The hit-condition language of `evaluate_hit_condition`, and how often a condition passes. */
module HitConditions {
  import opened Wrappers

  /** What an expression asks of the hit count; anything unreadable asks nothing. */
  datatype HitCondition = Every(n: nat) | Exactly(n: nat) | AtLeast(n: nat) | Always
  {
    predicate Holds(hits: int) {
      match this
      case Every(n) => n > 0 && hits % n == 0
      case Exactly(n) => hits == n
      case AtLeast(n) => hits >= n
      case Always => true
    }
  }

  // ----- reading an expression ------------------------------------------------------

  predicate IsSpace(c: char) {
    c == ' ' || '\t' <= c <= '\r' || '\U{1c}' <= c <= '\U{1f}'
  }

  predicate IsDigit(c: char) {
    '0' <= c <= '9'
  }

  function SkipSpaces(s: string): string {
    if s != [] && IsSpace(s[0]) then SkipSpaces(s[1..]) else s
  }

  function DropTrailing(s: string): string {
    if s != [] && IsSpace(s[|s| - 1]) then DropTrailing(s[..|s| - 1]) else s
  }

  function StripSpaces(s: string): string {
    DropTrailing(SkipSpaces(s))
  }

  /** The value of a non-empty string of digits. */
  function Digits(s: string): Option<nat> {
    if s == [] || !IsDigit(s[|s| - 1]) then None
    else
      var d := (s[|s| - 1] as int - '0' as int) as nat;
      if |s| == 1 then Some(d)
      else
        match Digits(s[..|s| - 1])
        case None => None
        case Some(n) => Some(10 * n + d)
  }

  function After(s: string, op: string): Option<nat> {
    if op <= s then Digits(SkipSpaces(s[|op|..])) else None
  }

  function Parse(expr: string): HitCondition {
    var s := StripSpaces(expr);
    if After(s, "%").Some? then Every(After(s, "%").value)
    else if After(s, "==").Some? then Exactly(After(s, "==").value)
    else if After(s, ">=").Some? then AtLeast(After(s, ">=").value)
    else if Digits(s).Some? then Exactly(Digits(s).value)
    else Always
  }

  predicate EvaluateHitCondition(expr: string, hits: int) {
    Parse(expr).Holds(hits)
  }

  // ----- writing one ----------------------------------------------------------------

  function Decimal(n: nat): (s: string)
    ensures s != []
  {
    var last := [('0' as int + n % 10) as char];
    if n < 10 then last else Decimal(n / 10) + last
  }

  predicate AllSpace(s: string) {
    forall i :: 0 <= i < |s| ==> IsSpace(s[i])
  }

  lemma {:induction false} DecimalReads(n: nat)
    ensures Digits(Decimal(n)) == Some(n)
    ensures IsDigit(Decimal(n)[0]) && IsDigit(Decimal(n)[|Decimal(n)| - 1])
  {
    var s := Decimal(n);
    var last := ('0' as int + n % 10) as char;
    if n >= 10 {
      DecimalReads(n / 10);
      assert s[..|s| - 1] == Decimal(n / 10);
    }
  }

  lemma {:induction false} SkipsSpaces(pre: string, s: string)
    requires AllSpace(pre) && (s != [] ==> !IsSpace(s[0]))
    ensures SkipSpaces(pre + s) == s
  {
    if pre == [] {
      assert pre + s == s;
    } else {
      assert (pre + s)[1..] == pre[1..] + s;
      SkipsSpaces(pre[1..], s);
    }
  }

  lemma {:induction false} DropsTrailing(s: string, post: string)
    requires AllSpace(post) && (s != [] ==> !IsSpace(s[|s| - 1]))
    ensures DropTrailing(s + post) == s
  {
    if post == [] {
      assert s + post == s;
    } else {
      var n := |post| - 1;
      assert (s + post)[..|s + post| - 1] == s + post[..n];
      DropsTrailing(s, post[..n]);
    }
  }

  lemma StripsTo(pre: string, core: string, post: string)
    requires AllSpace(pre) && AllSpace(post)
    requires core != [] && !IsSpace(core[0]) && !IsSpace(core[|core| - 1])
    ensures StripSpaces(pre + core + post) == core
  {
    assert pre + core + post == pre + (core + post);
    SkipsSpaces(pre, core + post);
    DropsTrailing(core, post);
  }

  lemma AfterReads(op: string, mid: string, n: nat)
    requires AllSpace(mid)
    ensures After(op + mid + Decimal(n), op) == Some(n)
  {
    DecimalReads(n);
    assert op + mid + Decimal(n) == op + (mid + Decimal(n));
    SkipsSpaces(mid, Decimal(n));
  }

  lemma NotAfter(s: string, op: string)
    requires s != [] && op != [] && s[0] != op[0]
    ensures After(s, op) == None
  {
  }

  lemma CoreReads(op: string, mid: string, n: nat)
    requires AllSpace(mid) && op in {"%", "==", ">="}
    ensures var core := op + mid + Decimal(n);
      && !IsSpace(core[0]) && !IsSpace(core[|core| - 1])
      && Parse(core) == if op == "%" then Every(n) else if op == "==" then Exactly(n) else AtLeast(n)
  {
    var core := op + mid + Decimal(n);
    DecimalReads(n);
    assert core[|core| - 1] == Decimal(n)[|Decimal(n)| - 1] && core[0] == op[0];
    StripsTo("", core, "");
    assert "" + core + "" == core;
    hide After, Digits, StripSpaces, Decimal;
    AfterReads(op, mid, n);
    if op != "%" {
      NotAfter(core, "%");
    }
    if op == ">=" {
      NotAfter(core, "==");
    }
  }

  lemma NumberReads(n: nat)
    ensures Parse(Decimal(n)) == Exactly(n)
  {
    var core := Decimal(n);
    DecimalReads(n);
    StripsTo("", core, "");
    assert "" + core + "" == core;
    NotAfter(core, "%");
    NotAfter(core, "==");
    NotAfter(core, ">=");
  }

  /** An operator followed by a number, spaced anywhere around either, reads as intended. */
  lemma WrittenConditionReads(pre: string, op: string, mid: string, n: nat, post: string)
    requires AllSpace(pre) && AllSpace(mid) && AllSpace(post) && op in {"%", "==", ">="}
    ensures Parse(pre + (op + mid + Decimal(n)) + post) ==
      if op == "%" then Every(n) else if op == "==" then Exactly(n) else AtLeast(n)
  {
    hide Parse, StripSpaces, Decimal;
    var core := op + mid + Decimal(n);
    CoreReads(op, mid, n);
    StripsTo(pre, core, post);
    StripsTo("", core, "");
    assert "" + core + "" == core;
    SpacingIgnored(pre + core + post, core);
  }

  /** What a written condition asks of the count, in numbers. */
  lemma WrittenConditionDecides(pre: string, op: string, mid: string, n: nat, post: string, hits: int)
    requires AllSpace(pre) && AllSpace(mid) && AllSpace(post) && op in {"%", "==", ">="}
    ensures EvaluateHitCondition(pre + (op + mid + Decimal(n)) + post, hits) <==>
      (op == "%" && n > 0 && hits % n == 0) || (op == "==" && hits == n) || (op == ">=" && hits >= n)
  {
    hide Parse;
    WrittenConditionReads(pre, op, mid, n, post);
  }

  /** An operator, white space and digits; a condition without an operator is digits alone. */
  ghost predicate Written(s: string, op: string, mid: string, digits: string) {
    && s == op + (mid + digits) && AllSpace(mid) && digits != [] && (forall i :: 0 <= i < |digits| ==> IsDigit(digits[i]))
    && (op in {"%", "==", ">="} || (op == "" && mid == ""))
  }

  lemma {:induction false} DigitsIff(s: string)
    ensures Digits(s).Some? <==> s != [] && forall i :: 0 <= i < |s| ==> IsDigit(s[i])
  {
    if |s| > 1 {
      DigitsIff(s[..|s| - 1]);
    }
  }

  lemma {:induction false} SkippedAre(s: string) returns (mid: string)
    ensures s == mid + SkipSpaces(s) && AllSpace(mid)
  {
    if s != [] && IsSpace(s[0]) {
      mid := SkippedAre(s[1..]);
      mid := [s[0]] + mid;
      assert s == [s[0]] + s[1..];
    } else {
      mid := "";
    }
  }

  lemma AfterIff(s: string, op: string)
    requires op in {"%", "==", ">="}
    ensures After(s, op).Some? <==> exists mid, digits :: Written(s, op, mid, digits)
  {
    hide Digits;
    if After(s, op).Some? {
      var mid := SkippedAre(s[|op|..]);
      DigitsIff(SkipSpaces(s[|op|..]));
      assert s == op + (mid + SkipSpaces(s[|op|..]));
      assert Written(s, op, mid, SkipSpaces(s[|op|..]));
    }
    if mid, digits :| Written(s, op, mid, digits) {
      assert s[|op|..] == mid + digits;
      SkipsSpaces(mid, digits);
      DigitsIff(digits);
    }
  }

  lemma PlainIff(s: string)
    ensures Digits(s).Some? <==> exists mid, digits :: Written(s, "", mid, digits)
  {
    DigitsIff(s);
    assert "" + ("" + s) == s;
    if Digits(s).Some? {
      assert Written(s, "", "", s);
    }
    if mid, digits :| Written(s, "", mid, digits) {
      assert "" + (mid + digits) == digits;
    }
  }

  /** A condition that can be read in none of the four ways passes whatever the count. */
  lemma UnreadableAlwaysPasses(expr: string, hits: int)
    ensures Parse(expr) == Always <==> !exists op, mid, digits :: Written(StripSpaces(expr), op, mid, digits)
    ensures (!exists op, mid, digits :: Written(StripSpaces(expr), op, mid, digits)) ==> EvaluateHitCondition(expr, hits)
  {
    hide After, Digits, StripSpaces;
    var s := StripSpaces(expr);
    AfterIff(s, "%");
    AfterIff(s, "==");
    AfterIff(s, ">=");
    PlainIff(s);
    assert forall op, mid, digits :: Written(s, op, mid, digits) ==> op in {"%", "==", ">=", ""};
    hide Written;
  }

  /** Numbers are written in base ten, with any number of leading zeros. */
  lemma BaseTen(n: nat)
    ensures Decimal(n) == if n < 10 then ["0123456789"[n]] else Decimal(n / 10) + Decimal(n % 10)
  {
    var digits := "0123456789";
    assert forall k :: 0 <= k < 10 ==> digits[k] == ('0' as int + k) as char;
  }

  lemma {:induction false} LeadingZeros(s: string)
    requires s != []
    ensures Digits(['0'] + s) == Digits(s)
  {
    var t := ['0'] + s;
    assert t[..|t| - 1] == ['0'] + s[..|s| - 1];
    if |s| > 1 {
      LeadingZeros(s[..|s| - 1]);
    } else {
      assert t[..1] == "0" && Digits("0") == Some(0);
    }
  }

  /** White space in ASCII. */
  lemma Spaces(c: char)
    ensures IsSpace(c) <==> c in {' ', '\t', '\n', '\r', '\U{0b}', '\U{0c}', '\U{1c}', '\U{1d}', '\U{1e}', '\U{1f}'}
  {
    if '\t' <= c <= '\r' {
      assert 9 <= c as int <= 13;
    }
    if '\U{1c}' <= c <= '\U{1f}' {
      assert 28 <= c as int <= 31;
    }
  }

  lemma SpacingIgnored(a: string, b: string)
    requires StripSpaces(a) == StripSpaces(b)
    ensures Parse(a) == Parse(b)
  {
    hide After, Digits, StripSpaces;
  }

  // ----- counting over successive hits ----------------------------------------------

  /** How many of the hits h+1 .. h+n satisfy the condition. */
  function Passes(c: HitCondition, h: int, n: nat): nat {
    if n == 0 then 0 else Passes(c, h, n - 1) + if c.Holds(h + n) then 1 else 0
  }

  /** `%n` passes once for each multiple of n in range. */
  lemma {:induction false} EveryCounts(k: nat, h: int, n: nat)
    requires k > 0
    ensures Passes(Every(k), h, n) == (h + n) / k - h / k
  {
    if n > 0 {
      EveryCounts(k, h, n - 1);
      NextMultiple(h + n - 1, k);
    }
  }

  lemma NextMultiple(m: int, k: nat)
    requires k > 0
    ensures (m + 1) / k == m / k + if (m + 1) % k == 0 then 1 else 0
  {
    var q, r := m / k, m % k;
    assert m == q * k + r;
    if r + 1 == k {
      assert m + 1 == (q + 1) * k;
      DivMod(m + 1, k, q + 1, 0);
    } else {
      DivMod(m + 1, k, q, r + 1);
    }
  }

  lemma DivMod(m: int, k: nat, q: int, r: nat)
    requires k > 0 && m == q * k + r && r < k
    ensures m / k == q && m % k == r
  {
    assert m == (m / k) * k + m % k;
    SmallMultiple(q - m / k, k);
  }

  lemma SmallMultiple(x: int, k: int)
    requires k > 0
    ensures -k < x * k < k ==> x == 0
  {
    if x > 0 {
      assert x * k >= k;
    } else if x < 0 {
      assert x * k <= -k;
    }
  }

  /** `==n` passes once if n is in range, and never otherwise. */
  lemma {:induction false} ExactlyCounts(k: nat, h: int, n: nat)
    ensures Passes(Exactly(k), h, n) == if h < k <= h + n then 1 else 0
  {
    if n > 0 {
      ExactlyCounts(k, h, n - 1);
    }
  }

  function Max(a: int, b: int): int {
    if a < b then b else a
  }

  /** `>=n` passes on a suffix of the run: from the first hit that reaches n to the last. */
  lemma {:induction false} AtLeastCounts(k: nat, h: int, n: nat)
    ensures Passes(AtLeast(k), h, n) == Max(0, h + n - Max(h, k - 1))
    ensures forall a, b :: h < a <= b <= h + n && AtLeast(k).Holds(a) ==> AtLeast(k).Holds(b)
  {
    if n > 0 {
      AtLeastCounts(k, h, n - 1);
    }
  }
}
