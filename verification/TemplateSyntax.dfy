/**
 Argument templates of flow steps: values and scopes, and the three rewriting passes the
 source runs with regular expressions, each as the leftmost, non-overlapping scan it is.
 */
module TemplateSyntax {
  import opened Wrappers
  import opened Text

  const NUL := 0 as char

  /** A Python value, with the text that `str` gives for it; only dictionaries have structure here. */
  datatype Value =
    | Str(text: string)
    | Dict(fields: map<string, Value>, text: string)
    | Other(text: string)

  type Scope = map<string, Value>

  datatype Scopes = Scopes(context: Scope, secrets: Scope, outputs: Scope)

  /** Step arguments: strings are templates, dictionaries and lists are searched for more of them. */
  datatype Arg =
    | TextArg(text: string)
    | ObjectArg(fields: map<string, Arg>)
    | ListArg(items: seq<Arg>)
    | ValueArg(value: Value)

  /** White space as `str.strip` understands it. */
  predicate IsSpace(c: char) {
    var n := c as int;
    || 0x09 <= n <= 0x0D || 0x1C <= n <= 0x20 || n == 0x85 || n == 0xA0 || n == 0x1680
    || 0x2000 <= n <= 0x200A || n == 0x2028 || n == 0x2029 || n == 0x202F || n == 0x205F || n == 0x3000
  }

  predicate IsBrace(c: char) {
    c == '{' || c == '}'
  }

  predicate IsSpecial(c: char) {
    IsBrace(c) || c == '\\'
  }

  // ---------------------------------------------------------------- lookup

  function SplitDots(key: string): (segments: seq<string>)
    ensures segments != []
  {
    if key == "" then [""]
    else
      var rest := SplitDots(key[1..]);
      if key[0] == '.' then [""] + rest else [[key[0]] + rest[0]] + rest[1..]
  }

  function Walk(scope: Scope, segments: seq<string>): Option<Value>
    requires segments != []
    decreases |segments|
  {
    if segments[0] !in scope then None
    else
      var v := scope[segments[0]];
      if |segments| == 1 then Some(v)
      else if v.Dict? then Walk(v.fields, segments[1..])
      else None
  }

  /** A key names an entry of the scope itself, or a path into nested dictionaries. */
  function ResolveDotted(scope: Scope, key: string): Option<Value> {
    if key in scope then Some(scope[key])
    else if '.' !in key then None
    else Walk(scope, SplitDots(key))
  }

  function ResolveReference(key: string, scopes: Scopes): Option<Value> {
    var inContext := ResolveDotted(scopes.context, key);
    if inContext.Some? then inContext
    else
      var inSecrets := ResolveDotted(scopes.secrets, key);
      if inSecrets.Some? then inSecrets else ResolveDotted(scopes.outputs, key)
  }

  // ---------------------------------------------------------------- masking escapes

  function Token(n: nat): string {
    [NUL] + PrintNat(n) + [NUL]
  }

  predicate StartsWithEscape(s: string) {
    |s| >= 2 && s[0] == '\\' && IsSpecial(s[1])
  }

  /** Each escaped character becomes a token; tokens are numbered from `n`. */
  function MaskFrom(s: string, n: nat): (string, seq<char>) {
    if s == "" then ("", [])
    else if StartsWithEscape(s) then
      var (masked, escaped) := MaskFrom(s[2..], n + 1);
      (Token(n) + masked, [s[1]] + escaped)
    else
      var (masked, escaped) := MaskFrom(s[1..], n);
      ([s[0]] + masked, escaped)
  }

  // ---------------------------------------------------------------- substituting placeholders

  /** Length of the leading run without braces. */
  function PlainRun(s: string): (n: nat)
    ensures n <= |s|
  {
    if s == "" || IsBrace(s[0]) then 0 else 1 + PlainRun(s[1..])
  }

  /** Length of the placeholder that `s` starts with, or 0. */
  function PlaceholderLength(s: string): (n: nat)
    ensures n <= |s| && (n > 0 ==> n >= 3)
  {
    if s == "" || s[0] != '{' then 0
    else
      var run := PlainRun(s[1..]);
      if run > 0 && 1 + run < |s| && s[1 + run] == '}' then run + 2 else 0
  }

  function KeyOf(placeholder: string): string
    requires |placeholder| >= 2
  {
    Trim(placeholder[1..|placeholder| - 1], IsSpace)
  }

  function Fill(placeholder: string, scopes: Scopes): string
    requires |placeholder| >= 2
  {
    match ResolveReference(KeyOf(placeholder), scopes)
    case Some(v) => v.text
    case None => placeholder
  }

  function Substitute(s: string, scopes: Scopes): string
    decreases |s|
  {
    if s == "" then ""
    else
      var n := PlaceholderLength(s);
      if n > 0 then Fill(s[..n], scopes) + Substitute(s[n..], scopes)
      else [s[0]] + Substitute(s[1..], scopes)
  }

  // ---------------------------------------------------------------- restoring escapes

  function DigitRun(s: string): (n: nat)
    ensures n <= |s| && AllDigits(s[..n])
    ensures n < |s| ==> !IsDigit(s[n])
  {
    if s == "" || !IsDigit(s[0]) then 0
    else
      var n := 1 + DigitRun(s[1..]);
      assert s[..n] == [s[0]] + s[1..][..n - 1];
      n
  }

  /** Length of the token that `s` starts with, or 0. */
  function TokenLength(s: string): (n: nat)
    ensures n <= |s| && (n > 0 ==> n >= 3 && AllDigits(s[1..n - 1]))
  {
    if s == "" || s[0] != NUL then 0
    else
      var run := DigitRun(s[1..]);
      assert s[1..run + 1] == s[1..][..run];
      if run > 0 && 1 + run < |s| && s[1 + run] == NUL then run + 2 else 0
  }

  function Restore(s: string, escaped: seq<char>): string
    decreases |s|
  {
    if s == "" then ""
    else
      var n := TokenLength(s);
      if n > 0 then
        var index := ParseNat(s[1..n - 1]);
        (if index < |escaped| then [escaped[index]] else "") + Restore(s[n..], escaped)
      else [s[0]] + Restore(s[1..], escaped)
  }

  // ---------------------------------------------------------------- the resolver

  function ResolveText(template: string, scopes: Scopes): Arg {
    var (masked, escaped) := MaskFrom(template, 0);
    if masked != "" && PlaceholderLength(masked) == |masked| then
      match ResolveReference(KeyOf(masked), scopes)
      case Some(Str(text)) => TextArg(Restore(text, escaped))
      case Some(v) => ValueArg(v)
      case None => TextArg(Restore(masked, escaped))
    else
      TextArg(Restore(Substitute(masked, scopes), escaped))
  }

  function ResolveArgs(arg: Arg, scopes: Scopes): Arg {
    match arg
    case TextArg(template) => ResolveText(template, scopes)
    case ObjectArg(fields) => ObjectArg(map k | k in fields :: ResolveArgs(fields[k], scopes))
    case ListArg(items) => ListArg(seq(|items|, i requires 0 <= i < |items| => ResolveArgs(items[i], scopes)))
    case ValueArg(_) => arg
  }

  // ---------------------------------------------------------------- the masking loop

  lemma MaskStep(s: string, i: nat, n: nat)
    requires i < |s|
    ensures var width := if StartsWithEscape(s[i..]) then 2 else 1;
      i + width <= |s| &&
      var (rest, escaped) := MaskFrom(s[i + width..], if width == 2 then n + 1 else n);
      MaskFrom(s[i..], n) ==
        if width == 2 then (Token(n) + rest, [s[i + 1]] + escaped) else ([s[i]] + rest, escaped)
  {
    var t := s[i..];
    assert |t| >= 2 ==> t[2..] == s[i + 2..];
    assert t[1..] == s[i + 1..];
  }

  lemma AppendMasked(a: string, x: seq<char>, b: string, y: seq<char>, c: string, z: seq<char>)
    ensures a + (b + c) == a + b + c && x + (y + z) == x + y + z
    ensures b + "" == b && y + [] == y && "" + b == b && [] + y == y && [] + z == z && x + [] == x
  {
  }

  /** The masking pass as the program does it: the token is numbered by the characters escaped so far. */
  method MaskEscapedTemplateChars(template: string) returns (masked: string, escapedChars: seq<char>)
    ensures (masked, escapedChars) == MaskFrom(template, 0)
  {
    masked, escapedChars := "", [];
    var i := 0;
    assert template[0..] == template;
    AppendMasked("", [], MaskFrom(template, 0).0, MaskFrom(template, 0).1, "", []);
    while i < |template|
      invariant 0 <= i <= |template|
      invariant var (rest, escaped) := MaskFrom(template[i..], |escapedChars|);
        MaskFrom(template, 0) == (masked + rest, escapedChars + escaped)
      decreases |template| - i
    {
      MaskStep(template, i, |escapedChars|);
      if StartsWithEscape(template[i..]) {
        ghost var (rest, escaped) := MaskFrom(template[i + 2..], |escapedChars| + 1);
        AppendMasked(masked, escapedChars, Token(|escapedChars|), [template[i + 1]], rest, escaped);
        masked := masked + Token(|escapedChars|);
        escapedChars := escapedChars + [template[i + 1]];
        i := i + 2;
      } else {
        ghost var (rest, escaped) := MaskFrom(template[i + 1..], |escapedChars|);
        AppendMasked(masked, escapedChars, [template[i]], [], rest, escaped);
        masked := masked + [template[i]];
        i := i + 1;
      }
    }
    assert template[i..] == "";
    assert masked + "" == masked && escapedChars + [] == escapedChars;
  }
}
