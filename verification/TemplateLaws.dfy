/** What a flow author may rely on: writing a template and resolving it are inverse to each other. */
module TemplateLaws {
  import opened Wrappers
  import opened Text
  import opened TemplateSyntax
  import opened TemplateInterpreter
  import opened TemplateResolver

  /** A piece of a template: text to appear as it is, or a reference to a value. */
  datatype Part = Literal(text: string) | Reference(key: string)

  /** Literal text, with a backslash before every brace and backslash. */
  function EscapeText(s: string): string {
    if s == "" then ""
    else (if s[0] == '{' || s[0] == '}' || s[0] == '\\' then ['\\', s[0]] else [s[0]]) + EscapeText(s[1..])
  }

  /** A key that can be written between braces. */
  predicate ValidKey(key: string) {
    key != "" && NulFree(key) && forall i :: 0 <= i < |key| ==> key[i] != '{' && key[i] != '}' && key[i] != '\\'
  }

  predicate ValidPart(part: Part) {
    match part
    case Literal(text) => NulFree(text)
    case Reference(key) => ValidKey(key)
  }

  function PrintPart(part: Part): string {
    match part
    case Literal(text) => EscapeText(text)
    case Reference(key) => "{" + key + "}"
  }

  function PrintParts(parts: seq<Part>): string {
    if parts == [] then "" else PrintPart(parts[0]) + PrintParts(parts[1..])
  }

  /** A reference that names nothing stays as it was written. */
  function PartText(part: Part, scopes: Scopes): string {
    match part
    case Literal(text) => text
    case Reference(key) =>
      match ResolveReference(Trim(key, IsSpace), scopes)
      case Some(v) => v.text
      case None => "{" + key + "}"
  }

  function Expand(parts: seq<Part>, scopes: Scopes): string {
    if parts == [] then "" else PartText(parts[0], scopes) + Expand(parts[1..], scopes)
  }

  /** The text of a resolved template. */
  function TextOf(arg: Arg): string
    requires arg.TextArg? || arg.ValueArg?
  {
    if arg.TextArg? then arg.text else arg.value.text
  }

  // ---------------------------------------------------------------- symbols of a printed template

  function EscapedSymbol(c: char): Symbol {
    if IsSpecial(c) then Esc(c) else Lit(c)
  }

  function LiteralSymbols(s: string): (symbols: seq<Symbol>)
    ensures |symbols| == |s|
    ensures forall i :: 0 <= i < |s| ==> symbols[i] == EscapedSymbol(s[i])
  {
    seq(|s|, i requires 0 <= i < |s| => EscapedSymbol(s[i]))
  }

  function PartSymbols(part: Part): seq<Symbol> {
    match part
    case Literal(text) => LiteralSymbols(text)
    case Reference(key) => [Lit('{')] + LiteralSymbols(key) + [Lit('}')]
  }

  lemma EscapeFirst(s: string)
    requires s != ""
    ensures EscapeText(s) == (if IsSpecial(s[0]) then ['\\', s[0]] else [s[0]]) + EscapeText(s[1..])
  {
  }

  lemma LexOfEscape(c: char, rest: string)
    requires IsSpecial(c)
    ensures Lex(['\\', c] + rest) == [Esc(c)] + Lex(rest)
  {
    assert (['\\', c] + rest)[2..] == rest;
  }

  lemma LexOfFirst(s: string, rest: string)
    requires s != ""
    ensures Lex(EscapeText(s) + rest) == [EscapedSymbol(s[0])] + Lex(EscapeText(s[1..]) + rest)
  {
    hide Lex, EscapeText;
    EscapeFirst(s);
    var more := EscapeText(s[1..]) + rest;
    if IsSpecial(s[0]) {
      assert EscapeText(s) + rest == ['\\', s[0]] + more;
      LexOfEscape(s[0], more);
    } else {
      assert EscapeText(s) + rest == [s[0]] + more;
      LexOfOrdinary(s[0], more);
    }
  }

  lemma {:induction false} LexOfEscaped(s: string, rest: string)
    ensures Lex(EscapeText(s) + rest) == LiteralSymbols(s) + Lex(rest)
  {
    if s == "" {
      assert EscapeText(s) + rest == rest;
      assert LiteralSymbols(s) + Lex(rest) == Lex(rest);
    } else {
      LexOfEscaped(s[1..], rest);
      LexOfFirst(s, rest);
      hide Lex, EscapeText;
      assert LiteralSymbols(s) + Lex(rest) == [EscapedSymbol(s[0])] + (LiteralSymbols(s[1..]) + Lex(rest));
    }
  }

  lemma {:induction false} EscapeOfOrdinary(s: string)
    requires forall i :: 0 <= i < |s| ==> !IsSpecial(s[i])
    ensures EscapeText(s) == s
  {
    if s != "" {
      EscapeOfOrdinary(s[1..]);
    }
  }

  lemma LexOfOrdinary(c: char, rest: string)
    requires c != '\\'
    ensures Lex([c] + rest) == [Lit(c)] + Lex(rest)
  {
    assert ([c] + rest)[1..] == rest;
  }

  lemma LexOfReference(key: string, rest: string)
    requires ValidKey(key)
    ensures Lex("{" + key + "}" + rest) == [Lit('{')] + LiteralSymbols(key) + [Lit('}')] + Lex(rest)
  {
    hide Lex, EscapeText, LiteralSymbols;
    EscapeOfOrdinary(key);
    assert "{" + key + "}" + rest == ['{'] + (key + (['}'] + rest));
    LexOfOrdinary('{', key + (['}'] + rest));
    LexOfEscaped(key, ['}'] + rest);
    LexOfOrdinary('}', rest);
  }

  lemma LexOfPart(part: Part, rest: string)
    requires ValidPart(part)
    ensures Lex(PrintPart(part) + rest) == PartSymbols(part) + Lex(rest)
  {
    hide Lex, EscapeText, LiteralSymbols, ValidKey;
    match part {
      case Literal(text) =>
        LexOfEscaped(text, rest);
      case Reference(key) =>
        LexOfReference(key, rest);
    }
  }

  lemma {:induction false} EscapeIsNulFree(s: string)
    requires NulFree(s)
    ensures NulFree(EscapeText(s))
  {
    if s != "" {
      EscapeIsNulFree(s[1..]);
    }
  }

  lemma {:induction false} PrintIsNulFree(parts: seq<Part>)
    requires forall i :: 0 <= i < |parts| ==> ValidPart(parts[i])
    ensures NulFree(PrintParts(parts))
  {
    if parts != [] {
      PrintIsNulFree(parts[1..]);
      if parts[0].Literal? {
        EscapeIsNulFree(parts[0].text);
      }
    }
  }

  // ---------------------------------------------------------------- meaning of a printed template

  lemma {:induction false} InterpretPasses(symbols: seq<Symbol>, rest: seq<Symbol>, scopes: Scopes)
    requires forall i :: 0 <= i < |symbols| ==> !Opens(symbols[i])
    ensures Interpret(symbols + rest, scopes) == Plain(symbols) + Interpret(rest, scopes)
  {
    hide Interpret;
    if symbols == [] {
      assert symbols + rest == rest;
    } else {
      assert (symbols + rest)[1..] == symbols[1..] + rest;
      InterpretPasses(symbols[1..], rest, scopes);
      InterpretSymbol(symbols + rest, scopes);
      assert Plain(symbols) == [symbols[0].c] + Plain(symbols[1..]);
    }
  }

  lemma ReferenceSymbols(key: string, rest: seq<Symbol>)
    requires ValidKey(key)
    ensures PlaceholderSymbols(PartSymbols(Reference(key)) + rest) == |key| + 2
  {
    var symbols := PartSymbols(Reference(key)) + rest;
    var run := PlainSymbols(symbols[1..]);
    assert forall i :: 0 <= i < |key| ==> symbols[1..][i] == LiteralSymbols(key)[i];
    assert symbols[1..][|key|] == Lit('}');
  }

  lemma PlainLiteral(s: string)
    ensures Plain(LiteralSymbols(s)) == s
  {
  }

  lemma MeaningOfReference(key: string, scopes: Scopes)
    requires ValidKey(key)
    ensures Meaning(PartSymbols(Reference(key)), scopes) == ResolveReference(Trim(key, IsSpace), scopes)
  {
    hide ResolveReference, Trim;
    var symbols := PartSymbols(Reference(key));
    assert symbols[1..|symbols| - 1] == LiteralSymbols(key);
    assert !HasEscape(LiteralSymbols(key));
    PlainLiteral(key);
  }

  lemma PlainReference(key: string)
    ensures Plain(PartSymbols(Reference(key))) == "{" + key + "}"
  {
  }

  lemma InterpretPart(part: Part, rest: seq<Symbol>, scopes: Scopes)
    requires ValidPart(part)
    ensures Interpret(PartSymbols(part) + rest, scopes) == PartText(part, scopes) + Interpret(rest, scopes)
  {
    hide Interpret, ResolveReference, Meaning, PlaceholderSymbols;
    match part {
      case Literal(text) =>
        InterpretPasses(LiteralSymbols(text), rest, scopes);
        assert Plain(LiteralSymbols(text)) == text;
      case Reference(key) =>
        var symbols := PartSymbols(part);
        ReferenceSymbols(key, rest);
        assert (symbols + rest)[..|symbols|] == symbols && (symbols + rest)[|symbols|..] == rest;
        InterpretFirst(symbols + rest, scopes);
        MeaningOfReference(key, scopes);
        PlainReference(key);
    }
  }

  lemma {:induction false} InterpretParts(parts: seq<Part>, scopes: Scopes)
    requires forall i :: 0 <= i < |parts| ==> ValidPart(parts[i])
    ensures Interpret(Lex(PrintParts(parts)), scopes) == Expand(parts, scopes)
  {
    hide PrintPart, PartText, ValidPart;
    if parts != [] {
      LexOfPart(parts[0], PrintParts(parts[1..]));
      InterpretPart(parts[0], Lex(PrintParts(parts[1..])), scopes);
      InterpretParts(parts[1..], scopes);
    }
  }

  /** Whether or not the template is one placeholder, its text is the one-pass meaning. */
  lemma TextOfMeaning(template: string, scopes: Scopes)
    ensures InterpretText(template, scopes).TextArg? || InterpretText(template, scopes).ValueArg?
    ensures TextOf(InterpretText(template, scopes)) == Interpret(Lex(template), scopes)
  {
    var symbols := Lex(template);
    if symbols != [] && PlaceholderSymbols(symbols) == |symbols| {
      InterpretFirst(symbols, scopes);
      assert symbols[..|symbols|] == symbols && symbols[|symbols|..] == [];
      assert Interpret([], scopes) == "";
      hide Interpret, Plain, Meaning;
    }
  }

  /**
   Print then resolve. A template written from literal parts and references resolves to the
   parts' texts in order: literals exactly as they were, values verbatim, never looked at again.
   */
  lemma PartsResolve(parts: seq<Part>, scopes: Scopes)
    requires NulFreeScopes(scopes) && forall i :: 0 <= i < |parts| ==> ValidPart(parts[i])
    ensures var r := ResolveText(PrintParts(parts), scopes);
      (r.TextArg? || r.ValueArg?) && TextOf(r) == Expand(parts, scopes)
  {
    hide NulFreeScopes, ResolveText, InterpretText, ValidPart;
    PrintIsNulFree(parts);
    ResolveTextRefines(PrintParts(parts), scopes);
    TextOfMeaning(PrintParts(parts), scopes);
    InterpretParts(parts, scopes);
  }

  /** Where no symbol is a brace, the masked text has no open brace. */
  lemma {:induction false} MaskedHasNoBrace(symbols: seq<Symbol>, n: nat)
    requires forall i :: 0 <= i < |symbols| ==> IsPlain(symbols[i])
    ensures '{' !in Render(symbols, n)
  {
    hide Token, IsPlain;
    if symbols != [] {
      PlainSymbolRenders(symbols[0], n);
      MaskedHasNoBrace(symbols[1..], NextToken(symbols[0], n));
    }
  }

  lemma EscapedIsPlain(s: string)
    ensures forall i :: 0 <= i < |s| ==> IsPlain(LiteralSymbols(s)[i])
  {
  }

  /** Escaped text, masked: no open brace is left, and restoring gives the text back. */
  lemma MaskedEscape(s: string)
    requires NulFree(s)
    ensures var (masked, escaped) := MaskFrom(EscapeText(s), 0);
      '{' !in masked && Restore(masked, escaped) == s
  {
    hide *;
    var symbols := LiteralSymbols(s);
    LexOfEscaped(s, "");
    NothingLexed();
    assert EscapeText(s) + "" == EscapeText(s) && symbols + [] == symbols;
    MaskIsRender(EscapeText(s), 0);
    var masked, escaped := Render(symbols, 0), EscapedChars(symbols);
    EscapedIsPlain(s);
    MaskedHasNoBrace(symbols, 0);
    LiteralIsNulFree(s);
    assert escaped[0..|escaped|] == escaped && masked + "" == masked;
    RestoreRender(symbols, 0, "", escaped);
    RestoreNothing(escaped);
    PlainLiteral(s);
    assert s + "" == s;
  }

  lemma LiteralIsNulFree(s: string)
    requires NulFree(s)
    ensures NulFreeSymbols(LiteralSymbols(s))
  {
  }

  /** Text without an open brace holds no placeholder: nothing is looked up. */
  lemma NothingToFill(masked: string, scopes: Scopes)
    requires '{' !in masked
    ensures PlaceholderLength(masked) == 0 && Substitute(masked, scopes) == masked
  {
    SubstitutePasses(masked, "", scopes);
    assert Substitute("", scopes) == "";
    hide Substitute;
    assert masked + "" == masked;
  }

  /** Escaping any text and resolving it gives the text back, whatever the scopes hold. */
  lemma EscapeRoundTrip(s: string, scopes: Scopes)
    requires NulFree(s)
    ensures ResolveText(EscapeText(s), scopes) == TextArg(s)
  {
    hide Restore, Substitute, MaskFrom, EscapeText, PlaceholderLength;
    MaskedEscape(s);
    NothingToFill(MaskFrom(EscapeText(s), 0).0, scopes);
  }

  /** A lone reference keeps the type of the value it names. */
  lemma LoneReference(key: string, scopes: Scopes)
    requires ValidKey(key) && NulFreeScopes(scopes)
    ensures ResolveText("{" + key + "}", scopes) ==
      match ResolveReference(Trim(key, IsSpace), scopes) {
        case Some(Str(text)) => TextArg(text)
        case Some(v) => ValueArg(v)
        case None => TextArg("{" + key + "}")
      }
  {
    hide *;
    LoneReferenceParts(key);
    var template, symbols := "{" + key + "}", PartSymbols(Reference(key));
    ResolveTextRefines(template, scopes);
    MeaningOfReference(key, scopes);
    LoneMeaning(template, symbols, scopes);
  }

  /** The symbols of a lone reference are one placeholder. */
  lemma LoneReferenceParts(key: string)
    requires ValidKey(key)
    ensures var template, symbols := "{" + key + "}", PartSymbols(Reference(key));
      && NulFree(template) && Lex(template) == symbols
      && |symbols| >= 2 && PlaceholderSymbols(symbols) == |symbols| && Plain(symbols) == template
  {
    hide Lex, LiteralSymbols, PlaceholderSymbols;
    var template, symbols := "{" + key + "}", PartSymbols(Reference(key));
    LexOfPart(Reference(key), "");
    NothingLexed();
    assert template + "" == template && symbols + [] == symbols;
    ReferenceSymbols(key, []);
    PlainReference(key);
  }

  lemma NothingLexed()
    ensures Lex("") == []
  {
  }

  lemma LoneMeaning(template: string, symbols: seq<Symbol>, scopes: Scopes)
    requires Lex(template) == symbols && |symbols| >= 2 && PlaceholderSymbols(symbols) == |symbols|
    ensures InterpretText(template, scopes) ==
      match Meaning(symbols, scopes) {
        case Some(Str(text)) => TextArg(text)
        case Some(v) => ValueArg(v)
        case None => TextArg(Plain(symbols))
      }
  {
    hide Lex, Meaning, PlaceholderSymbols, Plain;
  }

  // ---------------------------------------------------------------- what a key names

  /** Setting a key in the context shadows every scope; in the secrets, only the outputs; in the outputs, none. */
  lemma LookupOrder(key: string, v: Value, scopes: Scopes)
    ensures ResolveReference(key, scopes.(context := scopes.context[key := v])) == Some(v)
    ensures ResolveReference(key, scopes.(secrets := scopes.secrets[key := v])) ==
      if ResolveDotted(scopes.context, key).Some? then ResolveDotted(scopes.context, key) else Some(v)
    ensures ResolveReference(key, scopes.(outputs := scopes.outputs[key := v])) ==
      if ResolveDotted(scopes.context, key).Some? then ResolveDotted(scopes.context, key)
      else if ResolveDotted(scopes.secrets, key).Some? then ResolveDotted(scopes.secrets, key)
      else Some(v)
  {
  }

  function JoinDots(segments: seq<string>): string {
    if segments == [] then ""
    else if |segments| == 1 then segments[0]
    else segments[0] + "." + JoinDots(segments[1..])
  }

  lemma {:induction false} SplitFirst(segment: string, rest: string)
    requires '.' !in segment
    ensures SplitDots(segment + "." + rest) == [segment] + SplitDots(rest)
  {
    var s := segment + "." + rest;
    if segment == "" {
      assert s[1..] == rest;
    } else {
      SplitFirst(segment[1..], rest);
      assert segment[0] in segment && [segment[0]] + segment[1..] == segment;
      assert s[1..] == segment[1..] + "." + rest;
    }
  }

  lemma {:induction false} SplitNone(segment: string)
    requires '.' !in segment
    ensures SplitDots(segment) == [segment]
  {
    if segment != "" {
      SplitNone(segment[1..]);
      assert segment[0] in segment && [segment[0]] + segment[1..] == segment;
    }
  }

  lemma {:induction false} SplitOfJoin(segments: seq<string>)
    requires segments != [] && forall i :: 0 <= i < |segments| ==> '.' !in segments[i]
    ensures SplitDots(JoinDots(segments)) == segments
  {
    if |segments| == 1 {
      SplitNone(segments[0]);
    } else {
      SplitOfJoin(segments[1..]);
      SplitFirst(segments[0], JoinDots(segments[1..]));
    }
  }

  /**
   A chain of scopes along these segments: each next scope is the dictionary the one before it
   holds under its segment, and the last one holds `v` under the last segment.
   */
  ghost predicate Chain(scope: Scope, segments: seq<string>, scopes: seq<Scope>, v: Value) {
    && 0 < |segments| == |scopes| && scopes[0] == scope
    && (forall i :: 0 <= i < |segments| - 1 ==>
         segments[i] in scopes[i] && scopes[i][segments[i]].Dict? && scopes[i + 1] == scopes[i][segments[i]].fields)
    && segments[|segments| - 1] in scopes[|scopes| - 1]
    && scopes[|scopes| - 1][segments[|segments| - 1]] == v
  }

  lemma ChainRest(scope: Scope, segments: seq<string>, scopes: seq<Scope>, v: Value)
    requires |segments| > 1 && Chain(scope, segments, scopes, v)
    ensures scopes != [] && segments[0] in scope && scope[segments[0]].Dict?
    ensures Chain(scope[segments[0]].fields, segments[1..], scopes[1..], v)
  {
    assert forall i :: 0 <= i < |segments| - 1 ==> segments[1..][i] == segments[i + 1] && scopes[1..][i] == scopes[i + 1];
  }

  lemma ChainMore(scope: Scope, segments: seq<string>, scopes: seq<Scope>, v: Value)
    requires |segments| > 1 && segments[0] in scope && scope[segments[0]].Dict?
    requires Chain(scope[segments[0]].fields, segments[1..], scopes, v)
    ensures Chain(scope, segments, [scope] + scopes, v)
  {
    var all := [scope] + scopes;
    assert forall i :: 0 <= i < |scopes| ==> all[i + 1] == scopes[i] && segments[1..][i] == segments[i + 1];
    forall i | 0 <= i < |segments| - 1
      ensures segments[i] in all[i] && all[i][segments[i]].Dict? && all[i + 1] == all[i][segments[i]].fields
    {
      if i > 0 {
        assert segments[1..][i - 1] in scopes[i - 1] && scopes[i] == scopes[i - 1][segments[1..][i - 1]].fields;
      }
    }
  }

  lemma {:induction false} WalkExactly(scope: Scope, segments: seq<string>, v: Value)
    requires segments != []
    ensures Walk(scope, segments) == Some(v) <==> exists scopes :: Chain(scope, segments, scopes, v)
    decreases |segments|
  {
    hide Chain;
    if |segments| == 1 {
      OneLink(scope, segments, v);
    } else {
      if exists scopes :: Chain(scope, segments, scopes, v) {
        var scopes :| Chain(scope, segments, scopes, v);
        ChainRest(scope, segments, scopes, v);
        WalkExactly(scope[segments[0]].fields, segments[1..], v);
        assert Walk(scope, segments) == Walk(scope[segments[0]].fields, segments[1..]);
      }
      if Walk(scope, segments) == Some(v) {
        assert Walk(scope, segments) == Walk(scope[segments[0]].fields, segments[1..]);
        WalkExactly(scope[segments[0]].fields, segments[1..], v);
        var scopes :| Chain(scope[segments[0]].fields, segments[1..], scopes, v);
        ChainMore(scope, segments, scopes, v);
      }
    }
  }

  lemma OneLink(scope: Scope, segments: seq<string>, v: Value)
    requires |segments| == 1
    ensures (exists scopes :: Chain(scope, segments, scopes, v)) <==> segments[0] in scope && scope[segments[0]] == v
  {
    if segments[0] in scope && scope[segments[0]] == v {
      assert Chain(scope, segments, [scope], v);
    }
  }

  /**
   What a key names. An entry of the scope itself comes first; otherwise a key with dots names
   `v` exactly if a chain of nested dictionaries leads to `v` along its segments, and a key
   without dots names nothing.
   */
  lemma DottedPath(scope: Scope, segments: seq<string>, v: Value)
    requires segments != [] && forall i :: 0 <= i < |segments| ==> '.' !in segments[i]
    ensures var key := JoinDots(segments);
      ResolveDotted(scope, key) == Some(v) <==>
        if key in scope then scope[key] == v
        else |segments| > 1 && exists scopes :: Chain(scope, segments, scopes, v)
  {
    hide Chain;
    SplitOfJoin(segments);
    WalkExactly(scope, segments, v);
    if |segments| > 1 {
      var rest := JoinDots(segments[1..]);
      assert (segments[0] + "." + rest)[|segments[0]|] == '.';
    }
  }

  /** Every key is segments joined by dots. */
  lemma {:induction false} JoinOfSplit(key: string)
    ensures JoinDots(SplitDots(key)) == key
    ensures forall i :: 0 <= i < |SplitDots(key)| ==> '.' !in SplitDots(key)[i]
  {
    if key != "" {
      var rest := SplitDots(key[1..]);
      JoinOfSplit(key[1..]);
      if key[0] == '.' {
        assert ([""] + rest)[1..] == rest;
        assert key == "." + key[1..];
        forall i | 0 <= i < |rest| + 1 ensures '.' !in ([""] + rest)[i] {
          assert i > 0 ==> '.' !in rest[i - 1];
        }
      } else {
        var all := [[key[0]] + rest[0]] + rest[1..];
        assert all[1..] == rest[1..];
        forall i | 0 <= i < |all| ensures '.' !in all[i] {
          assert '.' !in rest[i];
        }
        assert key == [key[0]] + key[1..];
        if |rest| > 1 {
          assert [key[0]] + (rest[0] + "." + JoinDots(rest[1..])) == [key[0]] + rest[0] + "." + JoinDots(rest[1..]);
        }
      }
    }
  }

  // ---------------------------------------------------------------- why NUL is excluded

  ghost predicate HasToken(s: string) {
    exists i :: 0 <= i < |s| && TokenLength(s[i..]) > 0
  }

  lemma {:induction false} RestoreShrinks(s: string)
    ensures |Restore(s, [])| <= |s|
    ensures HasToken(s) ==> |Restore(s, [])| < |s|
    ensures !HasToken(s) ==> Restore(s, []) == s
    decreases |s|
  {
    if s != "" {
      var n := TokenLength(s);
      assert s[0..] == s;
      if n > 0 {
        RestoreShrinks(s[n..]);
      } else {
        RestoreShrinks(s[1..]);
        forall i | 0 <= i < |s| ensures TokenLength(s[i..]) > 0 ==> i > 0 && TokenLength(s[1..][i - 1..]) > 0 {
          assert i > 0 ==> s[1..][i - 1..] == s[i..];
        }
        forall i | 0 <= i < |s[1..]| ensures s[1..][i..] == s[i + 1..] {}
        assert HasToken(s) == HasToken(s[1..]);
      }
    }
  }

  /** Text without braces, in which no backslash is doubled. */
  ghost predicate Ordinary(s: string) {
    forall i :: 0 <= i < |s| ==> s[i] != '{' && s[i] != '}' && (i > 0 && s[i] == '\\' ==> s[i - 1] != '\\')
  }

  lemma OrdinaryRest(s: string)
    requires Ordinary(s) && s != ""
    ensures Ordinary(s[1..]) && !StartsWithEscape(s)
  {
    assert forall i :: 0 <= i < |s[1..]| ==> s[1..][i] == s[i + 1];
    assert |s| > 1 ==> s[1] != '{' && s[1] != '}' && (s[1] == '\\' ==> s[0] != '\\');
  }

  lemma {:induction false} OrdinaryPasses(s: string, n: nat, scopes: Scopes)
    requires Ordinary(s)
    ensures MaskFrom(s, n) == (s, []) && Substitute(s, scopes) == s
  {
    if s != "" {
      OrdinaryRest(s);
      OrdinaryPasses(s[1..], n, scopes);
      assert s[0] != '{';
      SubstituteChar(s, scopes);
      hide Substitute;
      assert [s[0]] + s[1..] == s;
    } else {
      assert Substitute(s, scopes) == "";
    }
  }

  /**
   Text without braces and doubled backslashes resolves to itself exactly when it holds no
   NUL, decimal digits, NUL: such text is taken for an escape token.
   */
  lemma OrdinaryTextKept(s: string, scopes: Scopes)
    requires Ordinary(s)
    ensures ResolveText(s, scopes) == TextArg(s) <==> !HasToken(s)
  {
    OrdinaryPasses(s, 0, scopes);
    assert s != "" ==> PlaceholderLength(s) == 0;
    RestoreShrinks(s);
    hide Restore, Substitute, MaskFrom;
  }

  /** An input that is not kept: three characters that vanish. */
  lemma TokenTextIsLost(scopes: Scopes)
    ensures ResolveText([NUL, '0', NUL], scopes) == TextArg("")
  {
    var s := [NUL, '0', NUL];
    OrdinaryPasses(s, 0, scopes);
    assert s[1..] == ['0', NUL] && ['0', NUL][1..] == [NUL];
    assert DigitRun(s[1..]) == 1 && TokenLength(s) == 3;
    assert s[3..] == "" && Restore("", []) == "";
    assert Restore(s, []) == "";
    hide MaskFrom, Substitute, Restore, TokenLength;
    assert PlaceholderLength(s) == 0;
  }
}
