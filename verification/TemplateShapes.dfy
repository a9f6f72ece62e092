/**
 What templates mean, told by the characters they are made of: which backslashes escape, where
 placeholders are, which key a placeholder names, and what happens inside nested arguments.
 */
module TemplateShapes {
  import opened Wrappers
  import opened Text
  import opened TemplateSyntax
  import opened TemplateInterpreter
  import TemplateResolver

  // ---------------------------------------------------------------- escapes

  /** The characters a backslash can escape. */
  ghost predicate Escapable(c: char) {
    c == '{' || c == '}' || c == '\\'
  }

  ghost function WrittenOne(y: Symbol): string {
    if y.Esc? then ['\\', y.c] else [y.c]
  }

  /** Symbols as they are written in a template. */
  ghost function Written(symbols: seq<Symbol>): string {
    if symbols == [] then "" else WrittenOne(symbols[0]) + Written(symbols[1..])
  }

  /** Only escapable characters are escaped, and a backslash before one of them always escapes it. */
  ghost predicate Read(symbols: seq<Symbol>) {
    && (forall i :: 0 <= i < |symbols| && symbols[i].Esc? ==> Escapable(symbols[i].c))
    && (forall i :: 0 <= i < |symbols| - 1 && symbols[i] == Lit('\\') ==>
         symbols[i + 1].Lit? && !Escapable(symbols[i + 1].c))
  }

  lemma ReadRest(symbols: seq<Symbol>)
    requires Read(symbols) && symbols != []
    ensures Read(symbols[1..])
  {
    assert forall i :: 0 <= i < |symbols[1..]| ==> symbols[1..][i] == symbols[i + 1];
  }

  lemma ReadMore(y: Symbol, rest: seq<Symbol>)
    requires Read(rest) && (y.Esc? ==> Escapable(y.c))
    requires y == Lit('\\') && rest != [] ==> rest[0].Lit? && !Escapable(rest[0].c)
    ensures Read([y] + rest)
  {
    var all := [y] + rest;
    assert forall i :: 0 < i < |all| ==> all[i] == rest[i - 1];
  }

  lemma WrittenStart(symbols: seq<Symbol>)
    requires symbols != []
    ensures Written(symbols) != "" && Written(symbols)[0] == if symbols[0].Esc? then '\\' else symbols[0].c
  {
  }

  lemma LexStep(template: string)
    requires template != ""
    ensures var escapes := |template| >= 2 && template[0] == '\\' && Escapable(template[1]);
      Lex(template) ==
        if escapes then [Esc(template[1])] + Lex(template[2..]) else [Lit(template[0])] + Lex(template[1..])
  {
  }

  lemma {:induction false} ReadOfLex(template: string)
    ensures Written(Lex(template)) == template && Read(Lex(template))
    decreases |template|
  {
    hide Lex, Read;
    if template == "" {
      NothingRead();
    } else {
      var escapes := |template| >= 2 && template[0] == '\\' && Escapable(template[1]);
      var y := if escapes then Esc(template[1]) else Lit(template[0]);
      var more := if escapes then template[2..] else template[1..];
      LexStep(template);
      ReadOfLex(more);
      var rest := Lex(more);
      if rest != [] {
        WrittenStart(rest);
      }
      hide Escapable;
      ReadMore(y, rest);
      assert ([y] + rest)[1..] == rest;
      assert template == WrittenOne(y) + more;
    }
  }

  lemma NothingRead()
    ensures Lex("") == [] && Written([]) == "" && Read([])
  {
  }

  lemma {:induction false} LexOfRead(symbols: seq<Symbol>)
    requires Read(symbols)
    ensures Lex(Written(symbols)) == symbols
  {
    if symbols != [] {
      var rest := symbols[1..];
      ReadRest(symbols);
      LexOfRead(rest);
      if rest != [] {
        WrittenStart(rest);
      }
      var s := Written(symbols);
      assert s[|WrittenOne(symbols[0])|..] == Written(rest);
      assert symbols == [symbols[0]] + rest;
    }
  }

  /** A template is read as symbols in exactly one way: written out they give it back, and every backslash that can escape does. */
  lemma LexExactly(template: string, symbols: seq<Symbol>)
    ensures Lex(template) == symbols <==> Written(symbols) == template && Read(symbols)
  {
    hide Lex, Written, Read;
    ReadOfLex(template);
    if Written(symbols) == template && Read(symbols) {
      LexOfRead(symbols);
    }
  }

  // ---------------------------------------------------------------- placeholders

  /** An open brace, something, and a close brace, without unescaped braces in between. */
  ghost predicate Braced(symbols: seq<Symbol>) {
    && |symbols| >= 3 && symbols[0] == Lit('{') && symbols[|symbols| - 1] == Lit('}')
    && forall i :: 0 < i < |symbols| - 1 ==> symbols[i] != Lit('{') && symbols[i] != Lit('}')
  }

  /** The symbols start with a placeholder exactly if some prefix is braced, and only one prefix is. */
  lemma PlaceholderExactly(symbols: seq<Symbol>, n: nat)
    ensures n > 0 && PlaceholderSymbols(symbols) == n <==> n <= |symbols| && Braced(symbols[..n])
  {
    hide PlainSymbols;
    if symbols != [] {
      var run := PlainSymbols(symbols[1..]);
      assert forall i :: 0 <= i < |symbols| - 1 ==> symbols[1..][i] == symbols[i + 1];
      if n <= |symbols| && Braced(symbols[..n]) {
        assert forall i :: 0 <= i < n ==> symbols[..n][i] == symbols[i];
        assert run == n - 2 by {
          forall i | 0 <= i < n - 2 ensures IsPlain(symbols[1..][i]) {
            assert symbols[..n][i + 1] == symbols[1..][i];
          }
          assert !IsPlain(symbols[1..][n - 2]);
        }
      }
      if n > 0 && PlaceholderSymbols(symbols) == n {
        forall i | 0 < i < n - 1 ensures symbols[..n][i] != Lit('{') && symbols[..n][i] != Lit('}') {
          assert IsPlain(symbols[1..][i - 1]);
        }
      }
    }
  }

  /** White space as the program's language strips it. */
  ghost predicate Strippable(c: char) {
    var n := c as int;
    || 9 <= n <= 13 || 28 <= n <= 32 || n == 133 || n == 160 || n == 5760 || 8192 <= n <= 8202
    || n == 8232 || n == 8233 || n == 8239 || n == 8287 || n == 12288
  }

  ghost predicate AllStrippable(s: string) {
    forall i :: 0 <= i < |s| ==> Strippable(s[i])
  }

  ghost predicate Stripped(s: string) {
    s != "" ==> !Strippable(s[0]) && !Strippable(s[|s| - 1])
  }

  /** The text is this key with nothing but white space around it. */
  ghost predicate Padded(s: string, key: string) {
    Stripped(key) && exists a, b :: AllStrippable(a) && AllStrippable(b) && s == a + key + b
  }

  lemma StripLeftParts(s: string)
    ensures var t := TrimLeft(s, IsSpace);
      |t| <= |s| && s == s[..|s| - |t|] + t && AllStrippable(s[..|s| - |t|]) && (t != "" ==> !Strippable(t[0]))
  {
    hide TrimLeft;
  }

  lemma StripRightParts(s: string)
    ensures var t := TrimRight(s, IsSpace);
      |t| <= |s| && s == t + s[|t|..] && AllStrippable(s[|t|..]) && (t != "" ==> !Strippable(t[|t| - 1]))
  {
    hide TrimRight;
  }

  lemma StrippedEnds(s: string)
    ensures Stripped(Trim(s, IsSpace)) && Trim(s, IsSpace) == TrimRight(TrimLeft(s, IsSpace), IsSpace)
  {
    hide TrimLeft, TrimRight, Strippable;
    var key := Trim(s, IsSpace);
    assert key != "" ==> !IsSpace(key[0]) && !IsSpace(key[|key| - 1]);
    SpaceIsStrippable();
  }

  lemma SpaceIsStrippable()
    ensures forall c :: IsSpace(c) == Strippable(c)
  {
  }

  lemma PaddedBy(s: string, a: string, t: string, key: string, b: string)
    requires s == a + t && t == key + b && AllStrippable(a) && AllStrippable(b) && Stripped(key)
    ensures Padded(s, key)
  {
    hide AllStrippable, Stripped;
    assert s == a + key + b;
  }

  lemma StripParts(s: string)
    ensures Padded(s, Trim(s, IsSpace))
  {
    hide *;
    var t := TrimLeft(s, IsSpace);
    StrippedEnds(s);
    StripLeftParts(s);
    StripRightParts(t);
    var key := TrimRight(t, IsSpace);
    PaddedBy(s, s[..|s| - |t|], t, key, t[|key|..]);
  }

  lemma {:induction false} StripLeft(a: string, s: string)
    requires AllStrippable(a) && (s != "" ==> !Strippable(s[0]))
    ensures TrimLeft(a + s, IsSpace) == s
  {
    if a == "" {
      assert a + s == s;
    } else {
      assert (a + s)[1..] == a[1..] + s;
      StripLeft(a[1..], s);
    }
  }

  lemma {:induction false} StripRight(s: string, b: string)
    requires AllStrippable(b) && (s != "" ==> !Strippable(s[|s| - 1]))
    ensures TrimRight(s + b, IsSpace) == s
    decreases |b|
  {
    if b == "" {
      assert s + b == s;
    } else {
      var init := b[..|b| - 1];
      assert (s + b)[..|s + b| - 1] == s + init;
      StripRight(s, init);
    }
  }

  lemma StripOfPadded(a: string, key: string, b: string)
    requires AllStrippable(a) && AllStrippable(b) && Stripped(key)
    ensures Trim(a + key + b, IsSpace) == key
  {
    hide TrimLeft, TrimRight, Strippable;
    if key == "" {
      var s := a + key + b;
      forall i | 0 <= i < |s| ensures Strippable(s[i]) {
        assert s[i] == if i < |a| then a[i] else b[i - |a|];
      }
      assert s + "" == s;
      StripLeft(s, "");
      StripRight("", "");
      assert "" + "" == "";
    } else {
      assert a + key + b == a + (key + b) && (key + b)[0] == key[0];
      StripLeft(a, key + b);
      StripRight(key, b);
    }
  }

  lemma PaddedExactly(s: string, key: string)
    ensures Trim(s, IsSpace) == key <==> Padded(s, key)
  {
    hide Trim, Stripped, AllStrippable;
    StripParts(s);
    if Padded(s, key) {
      var a, b :| AllStrippable(a) && AllStrippable(b) && s == a + key + b;
      StripOfPadded(a, key, b);
    }
  }

  ghost function Chars(symbols: seq<Symbol>): string {
    seq(|symbols|, i requires 0 <= i < |symbols| => symbols[i].c)
  }

  /** The placeholder holds no escape and names this key. */
  ghost predicate Names(placeholder: seq<Symbol>, key: string)
    requires |placeholder| >= 2
  {
    var inner := placeholder[1..|placeholder| - 1];
    (forall i :: 0 <= i < |inner| ==> inner[i].Lit?) && Padded(Chars(inner), key)
  }

  /** The value is that of the first scope, of context, secrets and outputs, in which the key names one. */
  ghost predicate Finds(key: string, scopes: Scopes, v: Value) {
    || ResolveDotted(scopes.context, key) == Some(v)
    || (ResolveDotted(scopes.context, key) == None && ResolveDotted(scopes.secrets, key) == Some(v))
    || (ResolveDotted(scopes.context, key) == None && ResolveDotted(scopes.secrets, key) == None &&
        ResolveDotted(scopes.outputs, key) == Some(v))
  }

  lemma FindsExactly(key: string, scopes: Scopes, v: Value)
    ensures ResolveReference(key, scopes) == Some(v) <==> Finds(key, scopes, v)
  {
    hide ResolveDotted;
  }

  lemma NamesExactly(placeholder: seq<Symbol>, key: string)
    requires |placeholder| >= 2
    ensures var inner := placeholder[1..|placeholder| - 1];
      Names(placeholder, key) <==> !HasEscape(inner) && Trim(Plain(inner), IsSpace) == key
  {
    hide Trim, Padded;
    var inner := placeholder[1..|placeholder| - 1];
    assert Plain(inner) == Chars(inner);
    PaddedExactly(Chars(inner), key);
  }

  lemma MeaningExactly(placeholder: seq<Symbol>, scopes: Scopes, v: Value)
    requires |placeholder| >= 2
    ensures Meaning(placeholder, scopes) == Some(v) <==> exists key :: Names(placeholder, key) && Finds(key, scopes, v)
  {
    hide ResolveReference, Names, Finds, Trim, HasEscape, Plain;
    var key := Trim(Plain(placeholder[1..|placeholder| - 1]), IsSpace);
    NamesExactly(placeholder, key);
    FindsExactly(key, scopes, v);
    forall k | Names(placeholder, k) ensures k == key {
      NamesExactly(placeholder, k);
    }
  }

  /** What stands for a placeholder in the text: its value's text, or if it has none, its characters. */
  ghost predicate Says(placeholder: seq<Symbol>, scopes: Scopes, text: string)
    requires |placeholder| >= 2
  {
    || (exists key, v :: Names(placeholder, key) && Finds(key, scopes, v) && text == v.text)
    || ((forall key, v :: Names(placeholder, key) ==> !Finds(key, scopes, v)) && text == Chars(placeholder))
  }

  lemma SaysExactly(placeholder: seq<Symbol>, scopes: Scopes, text: string)
    requires |placeholder| >= 2
    ensures Says(placeholder, scopes, text) <==>
      text == match Meaning(placeholder, scopes) { case Some(v) => v.text case None => Plain(placeholder) }
  {
    hide Meaning, Names, Finds;
    assert Plain(placeholder) == Chars(placeholder);
    forall key, v | Names(placeholder, key) && Finds(key, scopes, v) ensures Meaning(placeholder, scopes) == Some(v) {
      MeaningExactly(placeholder, scopes, v);
    }
    var m := Meaning(placeholder, scopes);
    if m.Some? {
      MeaningExactly(placeholder, scopes, m.value);
      var key :| Names(placeholder, key) && Finds(key, scopes, m.value);
    }
  }

  /**
   The text of symbols from left to right: a placeholder that starts here is taken as a whole;
   a symbol that starts none stands for its character.
   */
  lemma InterpretExactly(symbols: seq<Symbol>, scopes: Scopes)
    ensures Interpret([], scopes) == ""
    ensures symbols != [] && (forall n :: 0 <= n <= |symbols| ==> !Braced(symbols[..n])) ==>
      Interpret(symbols, scopes) == [symbols[0].c] + Interpret(symbols[1..], scopes)
    ensures forall n, text :: 3 <= n <= |symbols| && Braced(symbols[..n]) && Says(symbols[..n], scopes, text) ==>
      Interpret(symbols, scopes) == text + Interpret(symbols[n..], scopes)
  {
    hide Braced, Says, Meaning, Plain, PlaceholderSymbols;
    var n := PlaceholderSymbols(symbols);
    if n > 0 {
      PlaceholderExactly(symbols, n);
    }
    forall k, text | 3 <= k <= |symbols| && Braced(symbols[..k]) && Says(symbols[..k], scopes, text)
      ensures Interpret(symbols, scopes) == text + Interpret(symbols[k..], scopes)
    {
      PlaceholderExactly(symbols, k);
      SaysExactly(symbols[..k], scopes, text);
    }
  }

  /** A template that is one placeholder gives the value it names, strings as text, or else its characters; any other gives text. */
  lemma ResolveExactly(template: string, symbols: seq<Symbol>, scopes: Scopes)
    requires NulFree(template) && NulFreeScopes(scopes) && Written(symbols) == template && Read(symbols)
    ensures !Braced(symbols) ==> ResolveText(template, scopes) == TextArg(Interpret(symbols, scopes))
    ensures Braced(symbols) && (forall key, v :: Names(symbols, key) ==> !Finds(key, scopes, v)) ==>
      ResolveText(template, scopes) == TextArg(Chars(symbols))
    ensures Braced(symbols) ==> forall key, v :: Names(symbols, key) && Finds(key, scopes, v) ==>
      ResolveText(template, scopes) == if v.Str? then TextArg(v.text) else ValueArg(v)
  {
    hide ResolveText, Written, Read, NulFreeScopes, Lex, Meaning, Interpret, Names, Finds, Braced;
    LexExactly(template, symbols);
    TemplateResolver.ResolveTextRefines(template, scopes);
    assert symbols[..|symbols|] == symbols;
    PlaceholderExactly(symbols, |symbols|);
    hide PlaceholderSymbols;
    BracedIsLong(symbols);
    if Braced(symbols) {
      assert Plain(symbols) == Chars(symbols);
      forall key, v | Names(symbols, key) && Finds(key, scopes, v) ensures Meaning(symbols, scopes) == Some(v) {
        MeaningExactly(symbols, scopes, v);
      }
      var m := Meaning(symbols, scopes);
      if m.Some? {
        MeaningExactly(symbols, scopes, m.value);
      }
    }
    hide Plain;
  }

  lemma BracedIsLong(symbols: seq<Symbol>)
    ensures Braced(symbols) ==> |symbols| >= 3
  {
  }

  // ---------------------------------------------------------------- nested arguments

  datatype Place = Field(name: string) | Item(index: nat)

  /** The argument at a place inside. */
  ghost function Inside(arg: Arg, path: seq<Place>): Option<Arg>
    decreases |path|
  {
    if path == [] then Some(arg)
    else
      match (arg, path[0])
      case (ObjectArg(fields), Field(name)) => if name in fields then Inside(fields[name], path[1..]) else None
      case (ListArg(items), Item(index)) => if index < |items| then Inside(items[index], path[1..]) else None
      case _ => None
  }

  /** What resolving makes of one argument, apart from those inside it. */
  ghost predicate Resolved(arg: Arg, r: Arg, scopes: Scopes) {
    match arg
    case TextArg(template) => r == ResolveText(template, scopes)
    case ObjectArg(fields) => r.ObjectArg? && r.fields.Keys == fields.Keys
    case ListArg(items) => r.ListArg? && |r.items| == |items|
    case ValueArg(_) => r == arg
  }

  /** Every text, however deep inside, is resolved where it stands; nothing else changes. */
  lemma {:induction false} ArgsExactly(arg: Arg, scopes: Scopes, path: seq<Place>)
    requires Inside(arg, path).Some?
    ensures Inside(ResolveArgs(arg, scopes), path).Some?
    ensures Resolved(Inside(arg, path).value, Inside(ResolveArgs(arg, scopes), path).value, scopes)
    decreases |path|
  {
    hide ResolveText;
    if path != [] {
      match (arg, path[0]) {
        case (ObjectArg(fields), Field(name)) =>
          ArgsExactly(fields[name], scopes, path[1..]);
        case (ListArg(items), Item(index)) =>
          ArgsExactly(items[index], scopes, path[1..]);
      }
    }
  }
}
