/** The resolver computes what templates mean, and what that gives the author of a flow. */
module TemplateResolver {
  import opened Text
  import opened TemplateSyntax
  import opened TemplateInterpreter

  lemma {:induction false} RenderPlain(symbols: seq<Symbol>, n: nat)
    requires !HasEscape(symbols)
    ensures Render(symbols, n) == Plain(symbols)
  {
    if symbols != [] {
      assert !symbols[0].Esc?;
      assert forall i :: 0 <= i < |symbols[1..]| ==> symbols[1..][i] == symbols[i + 1];
      RenderPlain(symbols[1..], n);
    }
  }

  lemma {:induction false} EscapeRendersNul(symbols: seq<Symbol>, n: nat)
    requires HasEscape(symbols)
    ensures NUL in Render(symbols, n)
  {
    var y, m := symbols[0], NextToken(symbols[0], n);
    if y.Esc? {
      TokenHasNoBrace(n);
    } else {
      var i :| 0 <= i < |symbols| && symbols[i].Esc?;
      assert symbols[1..][i - 1].Esc?;
      EscapeRendersNul(symbols[1..], m);
    }
  }

  /** The masked placeholder names what the placeholder means: a token inside it names nothing. */
  lemma MeaningOfMasked(symbols: seq<Symbol>, n: nat, scopes: Scopes)
    requires symbols != [] && PlaceholderSymbols(symbols) == |symbols|
    requires NulFreeScopes(scopes)
    ensures |Render(symbols, n)| >= 2
    ensures ResolveReference(KeyOf(Render(symbols, n)), scopes) == Meaning(symbols, scopes)
  {
    var inner := symbols[1..|symbols| - 1];
    assert symbols == [Lit('{')] + inner + [Lit('}')];
    RenderBraced(inner, '}', n);
    var s := Render(symbols, n);
    assert s[1..|s| - 1] == Render(inner, n);
    if HasEscape(inner) {
      EscapeRendersNul(inner, n);
      var i :| 0 <= i < |Render(inner, n)| && Render(inner, n)[i] == NUL;
      TrimKeeps(Render(inner, n), IsSpace, i);
      if ResolveReference(KeyOf(s), scopes).Some? {
        ReferenceIsNulFree(KeyOf(s), scopes);
      }
    } else {
      RenderPlain(inner, n);
    }
  }

  /** One placeholder at the front of the masked text. */
  lemma FirstPlaceholder(symbols: seq<Symbol>, k: nat, n: nat, scopes: Scopes)
    requires symbols != [] && k == PlaceholderSymbols(symbols) && k > 0
    ensures |Render(symbols[..k], n)| >= 2
    ensures Substitute(Render(symbols, n), scopes) ==
      Fill(Render(symbols[..k], n), scopes) +
      Substitute(Render(symbols[k..], n + |EscapedChars(symbols[..k])|), scopes)
  {
    hide Fill;
    PlaceholderRenders(symbols, n);
    RenderSplit(symbols, k, n);
    var s, p := Render(symbols, n), Render(symbols[..k], n);
    assert s[..|p|] == p && s[|p|..] == Render(symbols[k..], n + |EscapedChars(symbols[..k])|);
    EmptyRender(symbols, n);
  }

  lemma PlaceholderOfPrefix(symbols: seq<Symbol>, k: nat)
    requires k == PlaceholderSymbols(symbols) && k > 0
    ensures PlaceholderSymbols(symbols[..k]) == k
  {
    var prefix := symbols[..k];
    assert forall i :: 0 <= i < k - 1 ==> prefix[1..][i] == symbols[1..][i];
    var run := PlainSymbols(prefix[1..]);
    assert PlainSymbols(symbols[1..]) == k - 2;
    assert !IsPlain(prefix[1..][k - 2]);
    assert forall i :: 0 <= i < k - 2 ==> IsPlain(prefix[1..][i]);
  }

  /** One symbol that starts no placeholder. */
  lemma FirstSymbol(symbols: seq<Symbol>, n: nat, scopes: Scopes)
    requires symbols != [] && PlaceholderSymbols(symbols) == 0
    ensures Substitute(Render(symbols, n), scopes) ==
      RenderSymbol(symbols[0], n) + Substitute(Render(symbols[1..], NextToken(symbols[0], n)), scopes)
  {
    hide Fill;
    var y := symbols[0];
    if Opens(y) {
      PlaceholderRenders(symbols, n);
      assert Render(symbols, n)[1..] == Render(symbols[1..], n);
    } else {
      TokenHasNoBrace(n);
      SubstitutePasses(RenderSymbol(y, n), Render(symbols[1..], NextToken(y, n)), scopes);
    }
  }

  ghost predicate EscapedFrom(symbols: seq<Symbol>, n: nat, escaped: seq<char>) {
    n + |EscapedChars(symbols)| == |escaped| && escaped[n..] == EscapedChars(symbols)
  }

  lemma EscapedOfSplit(symbols: seq<Symbol>, k: nat, n: nat, escaped: seq<char>)
    requires k <= |symbols| && EscapedFrom(symbols, n, escaped)
    ensures var m := n + |EscapedChars(symbols[..k])|;
      m <= |escaped| && escaped[n..m] == EscapedChars(symbols[..k]) && EscapedFrom(symbols[k..], m, escaped)
  {
    EscapedSplit(symbols, k);
    var m := n + |EscapedChars(symbols[..k])|;
    assert escaped[n..m] == escaped[n..][..m - n];
    assert escaped[m..] == escaped[n..][m - n..];
  }

  lemma EscapedOfRest(symbols: seq<Symbol>, n: nat, escaped: seq<char>)
    requires symbols != [] && EscapedFrom(symbols, n, escaped)
    ensures EscapedFrom(symbols[1..], NextToken(symbols[0], n), escaped)
  {
    EscapedOfSplit(symbols, 1, n, escaped);
    assert symbols[..1] == [symbols[0]] && [symbols[0]][1..] == [];
  }

  lemma InterpretFirst(symbols: seq<Symbol>, scopes: Scopes)
    requires symbols != [] && PlaceholderSymbols(symbols) > 0
    ensures var k := PlaceholderSymbols(symbols); var v := Meaning(symbols[..k], scopes);
      Interpret(symbols, scopes) == (if v.Some? then v.value.text else Plain(symbols[..k])) + Interpret(symbols[k..], scopes)
  {
    hide Meaning, Plain;
  }

  lemma NothingRefines(n: nat, escaped: seq<char>, scopes: Scopes)
    ensures Restore(Substitute(Render([], n), scopes), escaped) == "" == Interpret([], scopes)
  {
  }

  /** Restoring after substituting, started at any token number, is the one-pass meaning. */
  lemma {:induction false} SubstituteRefines(symbols: seq<Symbol>, n: nat, escaped: seq<char>, scopes: Scopes)
    requires NulFreeSymbols(symbols) && NulFreeScopes(scopes)
    requires EscapedFrom(symbols, n, escaped)
    ensures Restore(Substitute(Render(symbols, n), scopes), escaped) == Interpret(symbols, scopes)
    decreases |symbols|
  {
    hide Restore, Substitute, Render, Meaning, Plain, NulFreeScopes, Interpret, EscapedFrom, NextToken;
    if symbols == [] {
      NothingRefines(n, escaped, scopes);
    } else if PlaceholderSymbols(symbols) == 0 {
      FirstSymbolRefines(symbols, n, escaped, scopes);
      EscapedOfRest(symbols, n, escaped);
      SubstituteRefines(symbols[1..], NextToken(symbols[0], n), escaped, scopes);
      InterpretSymbol(symbols, scopes);
    } else {
      var k := PlaceholderSymbols(symbols);
      PlaceholderRefines(symbols, n, escaped, scopes);
      EscapedOfSplit(symbols, k, n, escaped);
      SubstituteRefines(symbols[k..], n + |EscapedChars(symbols[..k])|, escaped, scopes);
      InterpretFirst(symbols, scopes);
    }
  }

  lemma InterpretSymbol(symbols: seq<Symbol>, scopes: Scopes)
    requires symbols != [] && PlaceholderSymbols(symbols) == 0
    ensures Interpret(symbols, scopes) == [symbols[0].c] + Interpret(symbols[1..], scopes)
  {
    hide Meaning, Plain;
  }

  lemma FirstSymbolRefines(symbols: seq<Symbol>, n: nat, escaped: seq<char>, scopes: Scopes)
    requires symbols != [] && PlaceholderSymbols(symbols) == 0
    requires NulFreeSymbols(symbols) && EscapedFrom(symbols, n, escaped)
    ensures Restore(Substitute(Render(symbols, n), scopes), escaped) == [symbols[0].c] +
      Restore(Substitute(Render(symbols[1..], NextToken(symbols[0], n)), scopes), escaped)
  {
    hide Restore, Substitute, PlaceholderSymbols, Token;
    var y := symbols[0];
    var rest := Substitute(Render(symbols[1..], NextToken(y, n)), scopes);
    FirstSymbol(symbols, n, scopes);
    if y.Esc? {
      assert escaped[n] == escaped[n..][0] == y.c;
      RestoreToken(n, rest, escaped);
    } else {
      RestorePasses([y.c], rest, escaped);
    }
  }

  lemma PlaceholderRefines(symbols: seq<Symbol>, n: nat, escaped: seq<char>, scopes: Scopes)
    requires symbols != [] && PlaceholderSymbols(symbols) > 0
    requires NulFreeSymbols(symbols) && NulFreeScopes(scopes) && EscapedFrom(symbols, n, escaped)
    ensures var k := PlaceholderSymbols(symbols); var v := Meaning(symbols[..k], scopes);
      Restore(Substitute(Render(symbols, n), scopes), escaped) ==
      (if v.Some? then v.value.text else Plain(symbols[..k])) +
      Restore(Substitute(Render(symbols[k..], n + |EscapedChars(symbols[..k])|), scopes), escaped)
  {
    hide Restore, Substitute, Render, Meaning, NulFreeScopes, KeyOf, EscapedChars, ResolveReference, Plain;
    var k := PlaceholderSymbols(symbols);
    var m := n + |EscapedChars(symbols[..k])|;
    var rest := Substitute(Render(symbols[k..], m), scopes);
    var v := Meaning(symbols[..k], scopes);
    FirstPlaceholder(symbols, k, n, scopes);
    PlaceholderOfPrefix(symbols, k);
    hide PlaceholderSymbols;
    MeaningOfMasked(symbols[..k], n, scopes);
    if v.Some? {
      ReferenceIsNulFree(KeyOf(Render(symbols[..k], n)), scopes);
      RestorePasses(v.value.text, rest, escaped);
    } else {
      EscapedOfSplit(symbols, k, n, escaped);
      RestoreRender(symbols[..k], n, rest, escaped);
    }
  }

  /**
   The refinement. Without NUL in the template or the scopes, the three passes give exactly
   the one-pass meaning of the template.
   */
  lemma ResolveTextRefines(template: string, scopes: Scopes)
    requires NulFree(template) && NulFreeScopes(scopes)
    ensures ResolveText(template, scopes) == InterpretText(template, scopes)
  {
    hide Restore, Substitute, Interpret, Meaning, NulFreeScopes, KeyOf, ResolveReference, Plain, Render, EscapedChars,
      PlaceholderSymbols, PlaceholderLength;
    var symbols := Lex(template);
    MaskIsRender(template, 0);
    LexIsNulFree(template);
    var masked, escaped := Render(symbols, 0), EscapedChars(symbols);
    assert escaped[0..] == escaped && EscapedFrom(symbols, 0, escaped);
    EmptyRender(symbols, 0);
    SubstituteRefines(symbols, 0, escaped, scopes);
    if symbols != [] {
      ExactMatch(symbols);
    }
    if symbols != [] && PlaceholderSymbols(symbols) == |symbols| {
      MeaningOfMasked(symbols, 0, scopes);
      var v := Meaning(symbols, scopes);
      if v.Some? {
        ReferenceIsNulFree(KeyOf(masked), scopes);
        RestoreWhole(v.value.text, escaped);
      } else {
        RestoreRender(symbols, 0, "", escaped);
        assert masked + "" == masked && escaped[0..|escaped|] == escaped;
        RestoreNothing(escaped);
        assert Plain(symbols) + "" == Plain(symbols);
      }
    }
  }

  lemma RestoreNothing(escaped: seq<char>)
    ensures Restore("", escaped) == ""
  {
  }

  lemma RestoreWhole(s: string, escaped: seq<char>)
    requires NulFree(s)
    ensures Restore(s, escaped) == s
  {
    RestorePasses(s, "", escaped);
    assert s + "" == s;
  }

  /** The masked template is exactly one placeholder when the template is. */
  lemma ExactMatch(symbols: seq<Symbol>)
    requires symbols != []
    ensures PlaceholderLength(Render(symbols, 0)) == |Render(symbols, 0)| <==> PlaceholderSymbols(symbols) == |symbols|
  {
    var k := PlaceholderSymbols(symbols);
    EmptyRender(symbols, 0);
    if Opens(symbols[0]) {
      PlaceholderRenders(symbols, 0);
      RenderSplit(symbols, k, 0);
      EmptyRender(symbols[k..], |EscapedChars(symbols[..k])|);
      assert symbols[..|symbols|] == symbols;
    } else {
      TokenHasNoBrace(0);
      assert Render(symbols, 0)[0] == RenderSymbol(symbols[0], 0)[0];
    }
  }

  /** The same for whole argument trees. */
  lemma {:induction false} ResolveArgsRefines(arg: Arg, scopes: Scopes)
    requires NulFreeArg(arg) && NulFreeScopes(scopes)
    ensures ResolveArgs(arg, scopes) == InterpretArgs(arg, scopes)
  {
    hide ResolveText, InterpretText, NulFreeScopes;
    match arg {
      case TextArg(template) =>
        ResolveTextRefines(template, scopes);
      case ObjectArg(fields) =>
        forall k | k in fields ensures ResolveArgs(fields[k], scopes) == InterpretArgs(fields[k], scopes) {
          ResolveArgsRefines(fields[k], scopes);
        }
      case ListArg(items) =>
        forall i | 0 <= i < |items| ensures ResolveArgs(items[i], scopes) == InterpretArgs(items[i], scopes) {
          ResolveArgsRefines(items[i], scopes);
        }
      case ValueArg(_) =>
    }
  }
}
