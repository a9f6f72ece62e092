/**
 What a template means: one pass over its symbols, where an escaped character is never a
 brace, and the proof that masking, substituting and restoring computes exactly that.
 */
module TemplateInterpreter {
  import opened Wrappers
  import opened Text
  import opened TemplateSyntax

  /** A character of a template, written plainly or after a backslash. */
  datatype Symbol = Lit(c: char) | Esc(c: char)

  function Lex(template: string): (symbols: seq<Symbol>) {
    if template == "" then []
    else if StartsWithEscape(template) then [Esc(template[1])] + Lex(template[2..])
    else [Lit(template[0])] + Lex(template[1..])
  }

  predicate Opens(y: Symbol) {
    y == Lit('{')
  }

  predicate IsPlain(y: Symbol) {
    y.Lit? ==> !IsBrace(y.c)
  }

  /** The characters, without their backslashes. */
  function Plain(symbols: seq<Symbol>): string {
    seq(|symbols|, i requires 0 <= i < |symbols| => symbols[i].c)
  }

  predicate HasEscape(symbols: seq<Symbol>) {
    exists i :: 0 <= i < |symbols| && symbols[i].Esc?
  }

  function PlainSymbols(symbols: seq<Symbol>): (n: nat)
    ensures n <= |symbols|
    ensures forall i :: 0 <= i < n ==> IsPlain(symbols[i])
    ensures n < |symbols| ==> !IsPlain(symbols[n])
  {
    if symbols == [] || !IsPlain(symbols[0]) then 0 else 1 + PlainSymbols(symbols[1..])
  }

  /** Length of the placeholder the symbols start with, or 0: an open brace, at least one plain symbol, a close brace. */
  function PlaceholderSymbols(symbols: seq<Symbol>): (n: nat)
    ensures n <= |symbols| && (n > 0 ==> n >= 3 && Opens(symbols[0]))
  {
    if symbols == [] || !Opens(symbols[0]) then 0
    else
      var run := PlainSymbols(symbols[1..]);
      if run > 0 && 1 + run < |symbols| && symbols[1 + run] == Lit('}') then run + 2 else 0
  }

  /** The value a placeholder stands for: none if it holds an escape or names nothing. */
  function Meaning(placeholder: seq<Symbol>, scopes: Scopes): Option<Value>
    requires |placeholder| >= 2
  {
    var inner := placeholder[1..|placeholder| - 1];
    if HasEscape(inner) then None else ResolveReference(Trim(Plain(inner), IsSpace), scopes)
  }

  /** The text of a template: values go in verbatim, everything else as written, unescaped. */
  function Interpret(symbols: seq<Symbol>, scopes: Scopes): string
    decreases |symbols|
  {
    if symbols == [] then ""
    else
      var n := PlaceholderSymbols(symbols);
      if n == 0 then [symbols[0].c] + Interpret(symbols[1..], scopes)
      else
        var v := Meaning(symbols[..n], scopes);
        (if v.Some? then v.value.text else Plain(symbols[..n])) + Interpret(symbols[n..], scopes)
  }

  /** A template that is one placeholder gives the value itself; any other gives text. */
  function InterpretText(template: string, scopes: Scopes): Arg {
    var symbols := Lex(template);
    if symbols != [] && PlaceholderSymbols(symbols) == |symbols| then
      match Meaning(symbols, scopes)
      case Some(Str(text)) => TextArg(text)
      case Some(v) => ValueArg(v)
      case None => TextArg(Plain(symbols))
    else
      TextArg(Interpret(symbols, scopes))
  }

  function InterpretArgs(arg: Arg, scopes: Scopes): Arg {
    match arg
    case TextArg(template) => InterpretText(template, scopes)
    case ObjectArg(fields) => ObjectArg(map k | k in fields :: InterpretArgs(fields[k], scopes))
    case ListArg(items) => ListArg(seq(|items|, i requires 0 <= i < |items| => InterpretArgs(items[i], scopes)))
    case ValueArg(_) => arg
  }

  // ---------------------------------------------------------------- text free of NUL

  predicate NulFree(s: string) {
    NUL !in s
  }

  predicate NulFreeValue(v: Value) {
    && NulFree(v.text)
    && (v.Dict? ==> forall k :: k in v.fields ==> NulFree(k) && NulFreeValue(v.fields[k]))
  }

  predicate NulFreeScope(scope: Scope) {
    forall k :: k in scope ==> NulFree(k) && NulFreeValue(scope[k])
  }

  predicate NulFreeScopes(scopes: Scopes) {
    NulFreeScope(scopes.context) && NulFreeScope(scopes.secrets) && NulFreeScope(scopes.outputs)
  }

  predicate NulFreeArg(arg: Arg) {
    match arg
    case TextArg(template) => NulFree(template)
    case ObjectArg(fields) => forall k :: k in fields ==> NulFreeArg(fields[k])
    case ListArg(items) => forall i :: 0 <= i < |items| ==> NulFreeArg(items[i])
    case ValueArg(_) => true
  }

  lemma {:induction false} SplitDotsKeepsNul(key: string)
    requires NUL in key
    ensures exists i :: 0 <= i < |SplitDots(key)| && NUL in SplitDots(key)[i]
  {
    var rest := SplitDots(key[1..]);
    if key[0] == NUL {
      assert NUL in SplitDots(key)[0];
    } else {
      SplitDotsKeepsNul(key[1..]);
      var i :| 0 <= i < |rest| && NUL in rest[i];
      if key[0] == '.' {
        assert SplitDots(key)[i + 1] == rest[i];
      } else if i > 0 {
        assert SplitDots(key)[i] == rest[i];
      } else {
        assert NUL in SplitDots(key)[0];
      }
    }
  }

  lemma {:induction false} WalkIsNulFree(scope: Scope, segments: seq<string>)
    requires NulFreeScope(scope) && segments != [] && Walk(scope, segments).Some?
    ensures NulFree(Walk(scope, segments).value.text)
    ensures forall i :: 0 <= i < |segments| ==> NulFree(segments[i])
    decreases |segments|
  {
    var v := scope[segments[0]];
    if |segments| > 1 {
      WalkIsNulFree(v.fields, segments[1..]);
      assert forall i :: 1 <= i < |segments| ==> segments[i] == segments[1..][i - 1];
    }
  }

  /** Only NUL-free keys name anything, and what they name prints without NUL. */
  lemma LookupIsNulFree(scope: Scope, key: string)
    requires NulFreeScope(scope) && ResolveDotted(scope, key).Some?
    ensures NulFree(key) && NulFree(ResolveDotted(scope, key).value.text)
  {
    if key !in scope {
      WalkIsNulFree(scope, SplitDots(key));
      if NUL in key {
        SplitDotsKeepsNul(key);
      }
    }
  }

  lemma ReferenceIsNulFree(key: string, scopes: Scopes)
    requires NulFreeScopes(scopes) && ResolveReference(key, scopes).Some?
    ensures NulFree(key) && NulFree(ResolveReference(key, scopes).value.text)
  {
    hide NulFreeScope, ResolveDotted;
    if ResolveDotted(scopes.context, key).Some? {
      LookupIsNulFree(scopes.context, key);
    } else if ResolveDotted(scopes.secrets, key).Some? {
      LookupIsNulFree(scopes.secrets, key);
    } else {
      LookupIsNulFree(scopes.outputs, key);
    }
  }

  // ---------------------------------------------------------------- the masked text of a run of symbols

  function EscapedChars(symbols: seq<Symbol>): seq<char> {
    if symbols == [] then []
    else if symbols[0].Esc? then [symbols[0].c] + EscapedChars(symbols[1..])
    else EscapedChars(symbols[1..])
  }

  function RenderSymbol(y: Symbol, n: nat): string {
    if y.Esc? then Token(n) else [y.c]
  }

  function NextToken(y: Symbol, n: nat): nat {
    if y.Esc? then n + 1 else n
  }

  function Render(symbols: seq<Symbol>, n: nat): string {
    if symbols == [] then ""
    else RenderSymbol(symbols[0], n) + Render(symbols[1..], NextToken(symbols[0], n))
  }

  lemma {:induction false} MaskIsRender(s: string, n: nat)
    ensures MaskFrom(s, n) == (Render(Lex(s), n), EscapedChars(Lex(s)))
    decreases |s|
  {
    if s != "" {
      if StartsWithEscape(s) {
        MaskIsRender(s[2..], n + 1);
        assert Lex(s)[1..] == Lex(s[2..]);
      } else {
        MaskIsRender(s[1..], n);
        assert Lex(s)[1..] == Lex(s[1..]);
      }
    }
  }

  lemma {:induction false} EscapedSplit(symbols: seq<Symbol>, k: nat)
    requires k <= |symbols|
    ensures EscapedChars(symbols) == EscapedChars(symbols[..k]) + EscapedChars(symbols[k..])
    decreases k
  {
    if k == 0 {
      assert symbols[0..] == symbols && symbols[..0] == [];
    } else {
      EscapedSplit(symbols[1..], k - 1);
      assert symbols[..k][1..] == symbols[1..][..k - 1];
      assert symbols[1..][k - 1..] == symbols[k..];
    }
  }

  /** One more symbol in front: its rendering, and the number of the next token. */
  lemma RenderFirst(symbols: seq<Symbol>, n: nat)
    requires symbols != []
    ensures Render(symbols, n) == RenderSymbol(symbols[0], n) + Render(symbols[1..], NextToken(symbols[0], n))
    ensures n + |EscapedChars(symbols)| == NextToken(symbols[0], n) + |EscapedChars(symbols[1..])|
  {
  }

  lemma Associate(a: string, b: string, c: string)
    ensures a + (b + c) == a + b + c
  {
  }

  lemma RenderNone(n: nat)
    ensures Render([], n) == "" && EscapedChars([]) == []
  {
  }

  lemma {:induction false} RenderSplit(symbols: seq<Symbol>, k: nat, n: nat)
    requires k <= |symbols|
    ensures Render(symbols, n) == Render(symbols[..k], n) + Render(symbols[k..], n + |EscapedChars(symbols[..k])|)
    decreases k
  {
    hide *;
    if k == 0 {
      RenderNone(n);
      assert symbols[0..] == symbols && symbols[..0] == [];
    } else {
      var prefix, rest := symbols[..k], symbols[1..];
      var m := NextToken(symbols[0], n);
      RenderFirst(symbols, n);
      RenderFirst(prefix, n);
      RenderSplit(rest, k - 1, m);
      assert prefix[1..] == rest[..k - 1] && rest[k - 1..] == symbols[k..];
      Associate(RenderSymbol(symbols[0], n), Render(prefix[1..], m), Render(symbols[k..], n + |EscapedChars(prefix)|));
    }
  }

  ghost predicate NulFreeSymbols(symbols: seq<Symbol>) {
    forall i :: 0 <= i < |symbols| ==> symbols[i].c != NUL
  }

  lemma {:induction false} LexIsNulFree(template: string)
    requires NulFree(template)
    ensures NulFreeSymbols(Lex(template))
    decreases |template|
  {
    if template != "" {
      if StartsWithEscape(template) {
        LexIsNulFree(template[2..]);
      } else {
        LexIsNulFree(template[1..]);
      }
    }
  }

  // ---------------------------------------------------------------- where placeholders are

  lemma {:induction false} PlainRunAppend(p: string, rest: string)
    requires forall i :: 0 <= i < |p| ==> !IsBrace(p[i])
    ensures PlainRun(p + rest) == |p| + PlainRun(rest)
  {
    if p == "" {
      assert p + rest == rest;
    } else {
      assert (p + rest)[1..] == p[1..] + rest;
      PlainRunAppend(p[1..], rest);
    }
  }

  lemma TokenHasNoBrace(n: nat)
    ensures forall i :: 0 <= i < |Token(n)| ==> !IsBrace(Token(n)[i])
    ensures NUL in Token(n)
  {
    var digits := PrintNat(n);
    assert Token(n)[0] == NUL;
    assert forall i :: 0 <= i < |digits| ==> IsDigit(digits[i]);
    assert forall i :: 0 < i < |Token(n)| - 1 ==> Token(n)[i] == digits[i - 1];
  }

  lemma PlainSymbolRenders(y: Symbol, n: nat)
    requires IsPlain(y)
    ensures forall i :: 0 <= i < |RenderSymbol(y, n)| ==> !IsBrace(RenderSymbol(y, n)[i])
  {
    TokenHasNoBrace(n);
  }

  /** Runs without braces in the masked text are the renderings of runs of plain symbols. */
  lemma {:induction false} PlainRunRenders(symbols: seq<Symbol>, n: nat)
    ensures PlainRun(Render(symbols, n)) == |Render(symbols[..PlainSymbols(symbols)], n)|
  {
    if symbols != [] && IsPlain(symbols[0]) {
      var rest, m := symbols[1..], NextToken(symbols[0], n);
      PlainRunRenders(rest, m);
      PlainSymbolRenders(symbols[0], n);
      PlainRunAppend(RenderSymbol(symbols[0], n), Render(rest, m));
      var k := PlainSymbols(symbols);
      assert symbols[..k][1..] == rest[..k - 1];
    }
  }

  /** The rendering of an open brace, some symbols and one more literal character. */
  lemma RenderBraced(inner: seq<Symbol>, c: char, n: nat)
    ensures Render([Lit('{')] + inner + [Lit(c)], n) == "{" + Render(inner, n) + [c]
  {
    var all := [Lit('{')] + inner + [Lit(c)];
    assert all[1..] == inner + [Lit(c)];
    RenderSplit(inner + [Lit(c)], |inner|, n);
    assert (inner + [Lit(c)])[..|inner|] == inner && (inner + [Lit(c)])[|inner|..] == [Lit(c)];
    assert [Lit(c)][1..] == [];
    assert forall m: nat :: Render([Lit(c)], m) == [c];
  }

  /** What follows a run of plain symbols in the masked text is the brace that ended the run. */
  lemma AfterRun(rest: seq<Symbol>, n: nat)
    ensures var run := PlainSymbols(rest); var width := |Render(rest[..run], n)|;
      if run == |rest| then |Render(rest, n)| == width
      else width < |Render(rest, n)| && Render(rest, n)[width] == rest[run].c
  {
    var run := PlainSymbols(rest);
    RenderSplit(rest, run, n);
    if run < |rest| {
      assert rest[run..][0] == rest[run];
    }
  }

  /** Escapes neither open nor close a placeholder: it is found in the masked text exactly where the symbols have it. */
  lemma PlaceholderRenders(symbols: seq<Symbol>, n: nat)
    requires symbols != [] && Opens(symbols[0])
    ensures var k := PlaceholderSymbols(symbols);
      PlaceholderLength(Render(symbols, n)) == if k == 0 then 0 else |Render(symbols[..k], n)|
  {
    hide Render, EscapedChars, PlainRun, PlainSymbols, IsPlain;
    var rest := symbols[1..];
    var run := PlainSymbols(rest);
    var s := Render(symbols, n);
    RenderFirst(symbols, n);
    assert s[1..] == Render(rest, n) && s[0] == '{';
    PlainRunRenders(rest, n);
    AfterRun(rest, n);
    EmptyRender(rest[..run], n);
    if run < |rest| && rest[run] == Lit('}') {
      RenderBraced(rest[..run], '}', n);
      assert symbols[..run + 2] == [Lit('{')] + rest[..run] + [Lit('}')];
    } else if run < |rest| {
      NotPlainIsBrace(rest, run);
    }
  }

  lemma NotPlainIsBrace(symbols: seq<Symbol>, run: nat)
    requires run == PlainSymbols(symbols) && run < |symbols|
    ensures symbols[run].Lit? && IsBrace(symbols[run].c)
  {
  }

  lemma EmptyRender(symbols: seq<Symbol>, n: nat)
    ensures |Render(symbols, n)| > 0 <==> symbols != []
  {
  }

  // ---------------------------------------------------------------- what survives each pass

  lemma SubstituteChar(s: string, scopes: Scopes)
    requires s != "" && s[0] != '{'
    ensures Substitute(s, scopes) == [s[0]] + Substitute(s[1..], scopes)
  {
    hide Fill;
  }

  lemma {:induction false} SubstitutePasses(p: string, rest: string, scopes: Scopes)
    requires '{' !in p
    ensures Substitute(p + rest, scopes) == p + Substitute(rest, scopes)
  {
    hide Substitute;
    if p == "" {
      assert p + rest == rest;
    } else {
      SubstituteChar(p + rest, scopes);
      assert (p + rest)[1..] == p[1..] + rest;
      SubstitutePasses(p[1..], rest, scopes);
      assert [p[0]] + (p[1..] + Substitute(rest, scopes)) == p + Substitute(rest, scopes);
    }
  }

  lemma {:induction false} RestorePasses(p: string, rest: string, escaped: seq<char>)
    requires NulFree(p)
    ensures Restore(p + rest, escaped) == p + Restore(rest, escaped)
  {
    if p == "" {
      assert p + rest == rest;
    } else {
      assert (p + rest)[1..] == p[1..] + rest;
      RestorePasses(p[1..], rest, escaped);
    }
  }

  lemma {:induction false} DigitRunAppend(p: string, rest: string)
    requires AllDigits(p) && (rest == "" || !IsDigit(rest[0]))
    ensures DigitRun(p + rest) == |p|
  {
    if p == "" {
      assert p + rest == rest;
    } else {
      assert (p + rest)[1..] == p[1..] + rest;
      DigitRunAppend(p[1..], rest);
    }
  }

  /** A token at the front is recognised as one, and no more of the text is. */
  lemma TokenIsRead(digits: string, rest: string)
    requires digits != "" && AllDigits(digits)
    ensures var s := [NUL] + digits + [NUL] + rest; var n := |digits| + 2;
      TokenLength(s) == n && s[1..n - 1] == digits && s[n..] == rest
  {
    hide DigitRun;
    var s := [NUL] + digits + [NUL] + rest;
    assert s[1..] == digits + ([NUL] + rest);
    DigitRunAppend(digits, [NUL] + rest);
    assert s[1 + |digits|] == NUL;
  }

  lemma RestoreFirst(s: string, escaped: seq<char>)
    requires TokenLength(s) > 0
    ensures var n := TokenLength(s); var index := ParseNat(s[1..n - 1]);
      Restore(s, escaped) == (if index < |escaped| then [escaped[index]] else "") + Restore(s[n..], escaped)
  {
    hide TokenLength, ParseNat;
  }

  /** A token is read back as the character it stands for, whatever follows it. */
  lemma RestoreToken(n: nat, rest: string, escaped: seq<char>)
    requires n < |escaped|
    ensures Restore(Token(n) + rest, escaped) == [escaped[n]] + Restore(rest, escaped)
  {
    hide Restore, TokenLength, ParseNat, PrintNat, AllDigits;
    ParseOfPrint(n);
    TokenIsRead(PrintNat(n), rest);
    RestoreFirst(Token(n) + rest, escaped);
  }

  /** Restoring the masked text of some symbols gives their characters. */
  lemma {:induction false} RestoreRender(symbols: seq<Symbol>, n: nat, rest: string, escaped: seq<char>)
    requires NulFreeSymbols(symbols)
    requires n + |EscapedChars(symbols)| <= |escaped|
    requires escaped[n..n + |EscapedChars(symbols)|] == EscapedChars(symbols)
    ensures Restore(Render(symbols, n) + rest, escaped) == Plain(symbols) + Restore(rest, escaped)
  {
    hide Restore, Token;
    if symbols == [] {
      assert Render(symbols, n) + rest == rest;
    } else {
      var y, m := symbols[0], NextToken(symbols[0], n);
      var tail := Render(symbols[1..], m) + rest;
      assert Render(symbols, n) + rest == RenderSymbol(y, n) + tail;
      assert Plain(symbols) == [y.c] + Plain(symbols[1..]);
      var k := |EscapedChars(symbols)|;
      if y.Esc? {
        assert escaped[n] == escaped[n..n + k][0] == y.c;
        assert escaped[m..n + k] == escaped[n..n + k][1..];
        RestoreToken(n, tail, escaped);
      } else {
        RestorePasses([y.c], tail, escaped);
      }
      RestoreRender(symbols[1..], m, rest, escaped);
    }
  }
}
