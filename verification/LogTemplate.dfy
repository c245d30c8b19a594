/**
  The log-message template language of `format_log_message`: doubled braces are literal, and
  a non-empty brace-free text in single braces is an expression; empty braces are text.
 */
module LogTemplate {
  import opened Wrappers

  const LEFT: char := '\U{01}'
  const RIGHT: char := '\U{02}'

  predicate IsBrace(c: char) {
    c == '{' || c == '}'
  }

  predicate BraceFree(s: string) {
    forall i :: 0 <= i < |s| ==> !IsBrace(s[i])
  }

  predicate PlaceholderFree(s: string) {
    forall i :: 0 <= i < |s| ==> s[i] != LEFT && s[i] != RIGHT
  }

  // ----- the code -------------------------------------------------------------------

  /** Replace every `cc`, scanning from the left without overlap, by `p`. */
  function ReplaceDoubled(s: string, c: char, p: char): string {
    if |s| >= 2 && s[0] == c && s[1] == c then [p] + ReplaceDoubled(s[2..], c, p)
    else if s == [] then []
    else [s[0]] + ReplaceDoubled(s[1..], c, p)
  }

  function ReplaceChar(s: string, p: char, c: char): (r: string)
    ensures |r| == |s|
  {
    if s == [] then [] else [if s[0] == p then c else s[0]] + ReplaceChar(s[1..], p, c)
  }

  /** Length of the longest brace-free prefix. */
  function PlainLength(s: string): (n: nat)
    ensures n <= |s| && (forall i :: 0 <= i < n ==> !IsBrace(s[i])) && (n < |s| ==> IsBrace(s[n]))
  {
    if s == [] || IsBrace(s[0]) then 0 else 1 + PlainLength(s[1..])
  }

  /** Substitute each leftmost `{text}` with `text` brace-free and non-empty; a failing
      evaluation gives a fixed text. */
  function Substitute(s: string, eval: string -> Option<string>): string {
    if s == [] then []
    else
      var n := PlainLength(s[1..]);
      if s[0] == '{' && n > 0 && n + 1 < |s| && s[n + 1] == '}'
      then Rendered(eval(s[1..n + 1])) + Substitute(s[n + 2..], eval)
      else [s[0]] + Substitute(s[1..], eval)
  }

  function Rendered(value: Option<string>): string {
    if value.Some? then value.value else "<error>"
  }

  function Format(template: string, eval: string -> Option<string>): string {
    var marked := ReplaceDoubled(ReplaceDoubled(template, '{', LEFT), '}', RIGHT);
    ReplaceChar(ReplaceChar(Substitute(marked, eval), LEFT, '{'), RIGHT, '}')
  }

  // ----- the language ---------------------------------------------------------------

  /** A template is a sequence of literal characters and expressions. */
  datatype Token = Lit(c: char) | Expr(text: string)

  function Escape(c: char): string {
    if IsBrace(c) then [c, c] else [c]
  }

  function Written(t: Token): string {
    match t
    case Lit(c) => Escape(c)
    case Expr(text) => "{" + text + "}"
  }

  function Encode(tokens: seq<Token>): string {
    if tokens == [] then [] else Written(tokens[0]) + Encode(tokens[1..])
  }

  /** What a template means; empty braces are not an expression and stand for themselves. */
  function Meaning(tokens: seq<Token>, eval: string -> Option<string>): string {
    if tokens == [] then []
    else
      var first :=
        match tokens[0]
        case Lit(c) => [c]
        case Expr(text) =>
          if text == "" then "{}" else match eval(text) case Some(value) => value case None => "<error>";
      first + Meaning(tokens[1..], eval)
  }

  function Literal(s: string): (tokens: seq<Token>)
    ensures |tokens| == |s|
  {
    if s == [] then [] else [Lit(s[0])] + Literal(s[1..])
  }

  /** Expressions are brace-free, literals are no placeholder characters. */
  predicate TokenOk(t: Token) {
    match t
    case Lit(c) => c != LEFT && c != RIGHT
    case Expr(text) => BraceFree(text)
  }

  predicate WellFormed(tokens: seq<Token>) {
    forall i :: 0 <= i < |tokens| ==> TokenOk(tokens[i])
  }

  /** No rendered value contains a placeholder character. */
  predicate CleanValues(tokens: seq<Token>, eval: string -> Option<string>) {
    forall i :: 0 <= i < |tokens| && tokens[i].Expr? && tokens[i].text != "" ==>
      PlaceholderFree(Rendered(eval(tokens[i].text)))
  }

  /** No expression is directly followed by a literal closing brace. */
  predicate Separated(tokens: seq<Token>) {
    forall i :: 0 <= i < |tokens| - 1 && tokens[i].Expr? ==> tokens[i + 1] != Lit('}')
  }

  // ----- how the code reads a template ----------------------------------------------

  /** The literal closing braces that `tokens` starts with. */
  function Closers(tokens: seq<Token>): (k: nat)
    ensures k <= |tokens| && (k < |tokens| ==> tokens[k] != Lit('}'))
  {
    if tokens != [] && tokens[0] == Lit('}') then 1 + Closers(tokens[1..]) else 0
  }

  function Placeholders(k: nat): string {
    if k == 0 then "" else [RIGHT] + Placeholders(k - 1)
  }

  function Doubled(k: nat): string {
    if k == 0 then "" else "}}" + Doubled(k - 1)
  }

  /** The braces after an expression are paired from the left, so literal closing braces that
      follow it directly become placeholders at the end of the expression. */
  function Read(tokens: seq<Token>): seq<Token>
    decreases |tokens|
  {
    if tokens == [] then []
    else
      match tokens[0]
      case Lit(_) => [tokens[0]] + Read(tokens[1..])
      case Expr(text) =>
        var k := Closers(tokens[1..]);
        [Expr(text + Placeholders(k))] + Read(tokens[1 + k..])
  }

  lemma {:induction false} PlaceholdersOk(k: nat)
    ensures |Placeholders(k)| == k && BraceFree(Placeholders(k))
  {
    if k > 0 {
      PlaceholdersOk(k - 1);
    }
  }

  lemma {:induction false} ReadIsWellFormed(tokens: seq<Token>)
    requires WellFormed(tokens)
    ensures WellFormed(Read(tokens))
    decreases |tokens|
  {
    if tokens != [] {
      var k := if tokens[0].Expr? then Closers(tokens[1..]) else 0;
      var rest := tokens[1 + k..];
      assert forall i :: 0 <= i < |rest| ==> rest[i] == tokens[1 + k + i];
      ReadIsWellFormed(rest);
      PlaceholdersOk(k);
      assert TokenOk(tokens[0]);
    }
  }

  lemma SeparatedTail(tokens: seq<Token>)
    requires tokens != []
    ensures Separated(tokens) <==>
      Separated(tokens[1..]) && (tokens[0].Expr? && |tokens| > 1 ==> tokens[1] != Lit('}'))
  {
    var tail := tokens[1..];
    assert forall i :: 0 <= i < |tail| ==> tail[i] == tokens[i + 1];
    assert forall i :: 0 < i < |tokens| ==> tokens[i] == tail[i - 1];
  }

  lemma SameAfterHead(t: Token, a: seq<Token>, tokens: seq<Token>)
    requires tokens != []
    ensures [t] + a == tokens <==> t == tokens[0] && a == tokens[1..]
  {
    assert ([t] + a)[0] == t && ([t] + a)[1..] == a;
    assert tokens == [tokens[0]] + tokens[1..];
  }

  /** The code reads a template as it was written exactly when no expression is directly
      followed by a literal closing brace. */
  lemma {:induction false} ReadAsWrittenIff(tokens: seq<Token>)
    ensures Read(tokens) == tokens <==> Separated(tokens)
  {
    if tokens != [] {
      hide Separated;
      var tail := tokens[1..];
      SeparatedTail(tokens);
      ReadAsWrittenIff(tail);
      match tokens[0]
      case Lit(_) => SameAfterHead(tokens[0], Read(tail), tokens);
      case Expr(text) =>
        var k := Closers(tail);
        PlaceholdersOk(k);
        SameAfterHead(Expr(text + Placeholders(k)), Read(tail[k..]), tokens);
        assert tail[k..] == tokens[1 + k..] && |text + Placeholders(k)| == |text| + k;
        assert k == 0 ==> text + Placeholders(k) == text && tail[k..] == tail;
    }
  }

  lemma TailOk(tokens: seq<Token>, eval: string -> Option<string>)
    requires tokens != []
    ensures WellFormed(tokens) ==> WellFormed(tokens[1..]) && TokenOk(tokens[0])
    ensures CleanValues(tokens, eval) ==> CleanValues(tokens[1..], eval)
  {
    assert forall i :: 0 <= i < |tokens[1..]| ==> tokens[1..][i] == tokens[i + 1];
  }

  // ----- the passes, one token at a time --------------------------------------------

  /** After both doubled-brace passes. */
  function Marked(t: Token): string {
    match t
    case Lit(c) => [if c == '{' then LEFT else if c == '}' then RIGHT else c]
    case Expr(text) => "{" + text + "}"
  }

  function MarkedAll(tokens: seq<Token>): string {
    if tokens == [] then [] else Marked(tokens[0]) + MarkedAll(tokens[1..])
  }

  /** After the pass over opening braces only. */
  function HalfMarked(t: Token): string {
    match t
    case Lit(c) => if c == '{' then [LEFT] else Escape(c)
    case Expr(text) => "{" + text + "}"
  }

  function HalfMarkedAll(tokens: seq<Token>): string {
    if tokens == [] then [] else HalfMarked(tokens[0]) + HalfMarkedAll(tokens[1..])
  }

  /** A prefix without the doubled character, not ending in it, is copied. */
  lemma {:induction false} ReplaceCopies(a: string, b: string, c: char, p: char)
    requires forall i :: 0 <= i < |a| ==> a[i] != c
    ensures ReplaceDoubled(a + b, c, p) == a + ReplaceDoubled(b, c, p)
  {
    if a == [] {
      assert a + b == b;
    } else {
      assert (a + b)[1..] == a[1..] + b;
      ReplaceCopies(a[1..], b, c, p);
    }
  }

  lemma SingleStays(s: string, c: char, p: char)
    requires s != [] ==> s[0] != c
    ensures ReplaceDoubled([c] + s, c, p) == [c] + ReplaceDoubled(s, c, p)
  {
    assert ([c] + s)[1..] == s;
  }

  lemma PairGoes(s: string, c: char, p: char)
    ensures ReplaceDoubled([c, c] + s, c, p) == [p] + ReplaceDoubled(s, c, p)
  {
    assert ([c, c] + s)[2..] == s;
  }

  lemma OpenToken(t: Token, rest: string)
    requires TokenOk(t)
    ensures ReplaceDoubled(Written(t) + rest, '{', LEFT) == HalfMarked(t) + ReplaceDoubled(rest, '{', LEFT)
  {
    hide ReplaceDoubled;
    match t
    case Lit(c) =>
      if c == '{' {
        PairGoes(rest, '{', LEFT);
      } else {
        ReplaceCopies(Escape(c), rest, '{', LEFT);
      }
    case Expr(text) =>
      assert Written(t) + rest == "{" + ((text + "}") + rest);
      SingleStays((text + "}") + rest, '{', LEFT);
      ReplaceCopies(text + "}", rest, '{', LEFT);
  }

  lemma CloseLiteral(t: Token, rest: string)
    requires TokenOk(t) && t.Lit?
    ensures ReplaceDoubled(HalfMarked(t) + rest, '}', RIGHT) == Marked(t) + ReplaceDoubled(rest, '}', RIGHT)
  {
    hide ReplaceDoubled;
    if t.c == '}' {
      PairGoes(rest, '}', RIGHT);
    } else {
      ReplaceCopies(HalfMarked(t), rest, '}', RIGHT);
    }
  }

  /** A closing brace and the `k` doubled ones after it are paired from the left. */
  lemma {:induction false} PairedFromTheLeft(k: nat, rest: string)
    requires rest != [] ==> rest[0] != '}'
    ensures ReplaceDoubled("}" + (Doubled(k) + rest), '}', RIGHT) ==
            Placeholders(k) + ("}" + ReplaceDoubled(rest, '}', RIGHT))
  {
    hide ReplaceDoubled;
    if k == 0 {
      assert Doubled(0) + rest == rest;
      SingleStays(rest, '}', RIGHT);
    } else {
      PairedFromTheLeft(k - 1, rest);
      assert "}" + (Doubled(k) + rest) == ['}', '}'] + ("}" + (Doubled(k - 1) + rest));
      PairGoes("}" + (Doubled(k - 1) + rest), '}', RIGHT);
    }
  }

  lemma CloseExpression(text: string, k: nat, rest: string)
    requires BraceFree(text) && (rest != [] ==> rest[0] != '}')
    ensures ReplaceDoubled(HalfMarked(Expr(text)) + (Doubled(k) + rest), '}', RIGHT) ==
            Marked(Expr(text + Placeholders(k))) + ReplaceDoubled(rest, '}', RIGHT)
  {
    hide ReplaceDoubled, Doubled, Placeholders;
    var tail := "}" + (Doubled(k) + rest);
    assert HalfMarked(Expr(text)) + (Doubled(k) + rest) == ("{" + text) + tail;
    ReplaceCopies("{" + text, tail, '}', RIGHT);
    PairedFromTheLeft(k, rest);
  }

  lemma {:induction false} LeadingClosers(tokens: seq<Token>)
    ensures HalfMarkedAll(tokens) == Doubled(Closers(tokens)) + HalfMarkedAll(tokens[Closers(tokens)..])
  {
    if tokens != [] && tokens[0] == Lit('}') {
      LeadingClosers(tokens[1..]);
      assert tokens[1..][Closers(tokens[1..])..] == tokens[Closers(tokens)..];
    }
  }

  lemma {:induction false} OpeningPass(tokens: seq<Token>)
    requires WellFormed(tokens)
    ensures ReplaceDoubled(Encode(tokens), '{', LEFT) == HalfMarkedAll(tokens)
  {
    hide Written, HalfMarked, ReplaceDoubled;
    if tokens != [] {
      TailOk(tokens, _ => None);
      OpeningPass(tokens[1..]);
      OpenToken(tokens[0], Encode(tokens[1..]));
    } else {
      NothingToReplace('{', LEFT);
    }
  }

  lemma {:induction false} ClosingPass(tokens: seq<Token>)
    requires WellFormed(tokens)
    ensures ReplaceDoubled(HalfMarkedAll(tokens), '}', RIGHT) == MarkedAll(Read(tokens))
    decreases |tokens|
  {
    hide HalfMarked, Marked, ReplaceDoubled;
    if tokens == [] {
      NothingToReplace('}', RIGHT);
    } else {
      var k := if tokens[0].Expr? then Closers(tokens[1..]) else 0;
      var rest := tokens[1 + k..];
      assert forall i :: 0 <= i < |rest| ==> rest[i] == tokens[1 + k + i];
      ClosingPass(rest);
      match tokens[0]
      case Lit(_) => CloseLiteral(tokens[0], HalfMarkedAll(rest));
      case Expr(text) =>
        LeadingClosers(tokens[1..]);
        assert tokens[1..][k..] == rest;
        StartsWithoutClosing(rest);
        CloseExpression(text, k, HalfMarkedAll(rest));
    }
  }

  lemma NothingToReplace(c: char, p: char)
    ensures ReplaceDoubled("", c, p) == ""
  {
  }

  lemma StartsWithoutClosing(tokens: seq<Token>)
    ensures tokens == [] || tokens[0] != Lit('}') ==>
      var s := HalfMarkedAll(tokens); s != [] ==> s[0] != '}'
  {
  }

  /** Restoring the placeholders, as one function on text. */
  function Restore(s: string): string {
    ReplaceChar(ReplaceChar(s, LEFT, '{'), RIGHT, '}')
  }

  lemma {:induction false} ReplaceCharConcat(a: string, b: string, p: char, c: char)
    ensures ReplaceChar(a + b, p, c) == ReplaceChar(a, p, c) + ReplaceChar(b, p, c)
  {
    if a == [] {
      assert a + b == b;
    } else {
      assert (a + b)[1..] == a[1..] + b;
      ReplaceCharConcat(a[1..], b, p, c);
    }
  }

  lemma RestoreConcat(a: string, b: string)
    ensures Restore(a + b) == Restore(a) + Restore(b)
  {
    ReplaceCharConcat(a, b, LEFT, '{');
    ReplaceCharConcat(ReplaceChar(a, LEFT, '{'), ReplaceChar(b, LEFT, '{'), RIGHT, '}');
  }

  lemma {:induction false} RestorePlain(s: string)
    requires PlaceholderFree(s)
    ensures Restore(s) == s
  {
    if s != [] {
      RestorePlain(s[1..]);
    }
  }

  lemma PlainLengthIs(s: string, n: nat)
    requires n < |s| && (forall i :: 0 <= i < n ==> !IsBrace(s[i])) && IsBrace(s[n])
    ensures PlainLength(s) == n
  {
  }

  lemma SubstituteExpr(text: string, rest: string, eval: string -> Option<string>)
    requires text != "" && BraceFree(text)
    ensures Substitute("{" + text + "}" + rest, eval) == Rendered(eval(text)) + Substitute(rest, eval)
  {
    var s := "{" + text + "}" + rest;
    var n := |text|;
    assert s[1..] == text + "}" + rest;
    PlainLengthIs(s[1..], n);
    assert s[1..n + 1] == text && s[n + 2..] == rest;
  }

  lemma SubstituteEmpty(rest: string, eval: string -> Option<string>)
    ensures Substitute("{}" + rest, eval) == "{}" + Substitute(rest, eval)
  {
    var s := "{}" + rest;
    assert s[1..] == "}" + rest && s[1..][1..] == rest;
    assert Substitute(s[1..], eval) == "}" + Substitute(rest, eval);
  }

  lemma {:induction false} SubstitutePass(tokens: seq<Token>, eval: string -> Option<string>)
    requires WellFormed(tokens) && CleanValues(tokens, eval)
    ensures Restore(Substitute(MarkedAll(tokens), eval)) == Meaning(tokens, eval)
  {
    if tokens != [] {
      TailOk(tokens, eval);
      SubstitutePass(tokens[1..], eval);
      var rest := MarkedAll(tokens[1..]);
      match tokens[0]
      case Lit(c) =>
        var s := Marked(tokens[0]) + rest;
        assert s[1..] == rest && s[0] != '{';
        RestoreConcat(Marked(tokens[0]), Substitute(rest, eval));
        assert Restore(Marked(tokens[0])) == [c];
      case Expr(text) =>
        if text == "" {
          assert "{" + text + "}" + rest == "{}" + rest;
          SubstituteEmpty(rest, eval);
          RestoreConcat("{}", Substitute(rest, eval));
          RestorePlain("{}");
          return;
        }
        SubstituteExpr(text, rest, eval);
        RestoreConcat(Rendered(eval(text)), Substitute(rest, eval));
        RestorePlain(Rendered(eval(text)));
    }
  }

  // ----- text that is left alone ----------------------------------------------------

  /** Two equal braces side by side. */
  predicate DoubledAt(s: string, i: nat) {
    i + 1 < |s| && s[i] == s[i + 1] && IsBrace(s[i])
  }

  /** An opening and a closing brace around a non-empty brace-free text. */
  predicate ExpressionAt(s: string, i: nat, j: nat) {
    i + 1 < j < |s| && s[i] == '{' && s[j] == '}' && BraceFree(s[i + 1..j])
  }

  lemma {:induction false} NothingDoubled(s: string, c: char, p: char)
    requires IsBrace(c) && forall i: nat :: !DoubledAt(s, i)
    ensures ReplaceDoubled(s, c, p) == s
  {
    if s != [] {
      assert !DoubledAt(s, 0);
      forall i: nat ensures !DoubledAt(s[1..], i) {
        assert !DoubledAt(s, i + 1);
      }
      NothingDoubled(s[1..], c, p);
    }
  }

  lemma {:induction false} NoExpression(s: string, eval: string -> Option<string>)
    requires forall i: nat, j: nat :: !ExpressionAt(s, i, j)
    ensures Substitute(s, eval) == s
  {
    if s != [] {
      var n := PlainLength(s[1..]);
      assert BraceFree(s[1..n + 1]);
      assert !ExpressionAt(s, 0, n + 1);
      forall i: nat, j: nat ensures !ExpressionAt(s[1..], i, j) {
        assert !ExpressionAt(s, i + 1, j + 1);
        assert i + 1 < j < |s[1..]| ==> s[1..][i + 1..j] == s[i + 2..j + 1];
      }
      NoExpression(s[1..], eval);
    }
  }

  /** A text with no doubled brace and no expression comes out as it is, empty and stray braces
      included. */
  lemma StrayBracesStay(s: string, eval: string -> Option<string>)
    requires PlaceholderFree(s)
    requires (forall i: nat :: !DoubledAt(s, i)) && (forall i: nat, j: nat :: !ExpressionAt(s, i, j))
    ensures Format(s, eval) == s
  {
    NothingDoubled(s, '{', LEFT);
    NothingDoubled(s, '}', RIGHT);
    NoExpression(s, eval);
    RestorePlain(s);
  }

  // ----- the theorems ---------------------------------------------------------------

  /** Every template renders to the meaning of what the code reads. */
  lemma FormatRendersRead(tokens: seq<Token>, eval: string -> Option<string>)
    requires WellFormed(tokens) && CleanValues(Read(tokens), eval)
    ensures Format(Encode(tokens), eval) == Meaning(Read(tokens), eval)
  {
    OpeningPass(tokens);
    ClosingPass(tokens);
    ReadIsWellFormed(tokens);
    SubstitutePass(Read(tokens), eval);
  }

  /** So a template without a literal closing brace right after an expression renders to its
      own meaning. */
  lemma FormatRendersMeaning(tokens: seq<Token>, eval: string -> Option<string>)
    requires WellFormed(tokens) && CleanValues(tokens, eval) && Separated(tokens)
    ensures Format(Encode(tokens), eval) == Meaning(tokens, eval)
  {
    ReadAsWrittenIff(tokens);
    FormatRendersRead(tokens, eval);
  }

  lemma {:induction false} LiteralMeaning(s: string, eval: string -> Option<string>)
    requires PlaceholderFree(s)
    ensures Meaning(Literal(s), eval) == s
    ensures forall i :: 0 <= i < |s| ==> Literal(s)[i] == Lit(s[i])
  {
    if s != [] {
      LiteralMeaning(s[1..], eval);
      assert forall i :: 0 < i < |s| ==> Literal(s)[i] == Literal(s[1..])[i - 1];
    }
  }

  /** Escaping is inverted by formatting: a text with its braces doubled comes back. */
  lemma EscapedTextComesBack(s: string, eval: string -> Option<string>)
    requires PlaceholderFree(s)
    ensures Format(Encode(Literal(s)), eval) == s
  {
    LiteralMeaning(s, eval);
    FormatRendersMeaning(Literal(s), eval);
  }
}
