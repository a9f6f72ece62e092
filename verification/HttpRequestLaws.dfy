/**
 Which requests the parser accepts, and what it answers to the others, told by the shape of the
 text alone: which blanks, words, colons and names it is made of.
 */
module HttpRequestLaws {
  import opened Wrappers
  import opened Text
  import opened HttpSyntax
  import HttpReader
  import HttpRoundTrip

  // ---------------------------------------------------------------- blanks and words

  ghost predicate BlankChar(c: char) {
    c == ' ' || 9 <= c as int <= 13
  }

  ghost predicate Blank(s: string) {
    forall i :: 0 <= i < |s| ==> BlankChar(s[i])
  }

  ghost predicate Word(s: string) {
    s != "" && forall i :: 0 <= i < |s| ==> !BlankChar(s[i])
  }

  /** No blank at either end. */
  ghost predicate Tight(s: string) {
    s != "" ==> !BlankChar(s[0]) && !BlankChar(s[|s| - 1])
  }

  /** `s` is `t` between blanks. */
  ghost predicate Between(s: string, a: string, t: string, b: string) {
    Blank(a) && Blank(b) && s == a + t + b
  }

  lemma TrimLeftParts(s: string)
    ensures var t := TrimLeft(s, IsWhite);
      |t| <= |s| && s == s[..|s| - |t|] + t && Blank(s[..|s| - |t|]) && (t != "" ==> !BlankChar(t[0]))
  {
    hide TrimLeft;
  }

  lemma TrimRightParts(s: string)
    ensures var t := TrimRight(s, IsWhite);
      |t| <= |s| && s == t + s[|t|..] && Blank(s[|t|..]) && (t != "" ==> !BlankChar(t[|t| - 1]))
  {
    hide TrimRight;
  }

  lemma TightEnds(s: string)
    ensures Tight(Trim(s, IsWhite))
  {
    hide Trim, TrimLeft;
  }

  lemma TrimBetween(s: string) returns (a: string, b: string)
    ensures Tight(Trim(s, IsWhite)) && Between(s, a, Trim(s, IsWhite), b)
  {
    hide *;
    var t := TrimLeft(s, IsWhite);
    TightEnds(s);
    TrimLeftParts(s);
    TrimRightParts(t);
    TrimIsBoth(s);
    a, b := s[..|s| - |t|], t[|Trim(s, IsWhite)|..];
    Joined(s, a, t, Trim(s, IsWhite), b);
  }

  lemma TrimIsBoth(s: string)
    ensures Trim(s, IsWhite) == TrimRight(TrimLeft(s, IsWhite), IsWhite)
  {
    hide TrimLeft, TrimRight;
  }

  lemma Joined(s: string, a: string, t: string, r: string, b: string)
    requires s == a + t && t == r + b && Blank(a) && Blank(b)
    ensures Between(s, a, r, b)
  {
    hide Blank;
  }

  lemma {:induction false} TrimLeftOfBlank(a: string, s: string)
    requires Blank(a) && (s != "" ==> !BlankChar(s[0]))
    ensures TrimLeft(a + s, IsWhite) == s
  {
    if a == "" {
      assert a + s == s;
    } else {
      assert (a + s)[1..] == a[1..] + s;
      TrimLeftOfBlank(a[1..], s);
    }
  }

  lemma {:induction false} TrimRightOfBlank(s: string, b: string)
    requires Blank(b) && (s != "" ==> !BlankChar(s[|s| - 1]))
    ensures TrimRight(s + b, IsWhite) == s
    decreases |b|
  {
    if b == "" {
      assert s + b == s;
    } else {
      var init := b[..|b| - 1];
      assert (s + b)[..|s + b| - 1] == s + init;
      TrimRightOfBlank(s, init);
    }
  }

  lemma {:induction false} TrimLeftAllBlank(a: string)
    requires Blank(a)
    ensures TrimLeft(a, IsWhite) == ""
  {
    assert a + "" == a;
    TrimLeftOfBlank(a, "");
  }

  lemma TrimOfBetween(s: string, a: string, t: string, b: string)
    requires Tight(t) && Between(s, a, t, b)
    ensures Trim(s, IsWhite) == t
  {
    hide TrimLeft, TrimRight;
    if t == "" {
      assert s == a + b;
      forall i | 0 <= i < |s| ensures BlankChar(s[i]) {
        assert s[i] == if i < |a| then a[i] else b[i - |a|];
      }
      TrimLeftAllBlank(s);
      assert "" + "" == "";
      TrimRightOfBlank("", "");
    } else {
      assert s == a + (t + b) && (t + b)[0] == t[0];
      TrimLeftOfBlank(a, t + b);
      TrimRightOfBlank(t, b);
    }
  }

  /** Words with blanks around them. */
  ghost function Spaced(gaps: seq<string>, words: seq<string>): string
    requires |gaps| == |words| + 1
  {
    if words == [] then gaps[0] else gaps[0] + (words[0] + Spaced(gaps[1..], words[1..]))
  }

  /** Blanks that keep the words apart. */
  ghost predicate Gaps(gaps: seq<string>) {
    && (forall i :: 0 <= i < |gaps| ==> Blank(gaps[i]))
    && (forall i :: 0 < i < |gaps| - 1 ==> gaps[i] != "")
  }

  ghost predicate Words(words: seq<string>) {
    forall i :: 0 <= i < |words| ==> Word(words[i])
  }

  /** The line is these words, with blanks between and around them. */
  ghost predicate LineOf(line: string, words: seq<string>) {
    Words(words) && exists gaps :: |gaps| == |words| + 1 && Gaps(gaps) && line == Spaced(gaps, words)
  }

  lemma SplitAfterBlank(a: string, rest: string)
    requires Blank(a) && (rest != "" ==> !BlankChar(rest[0]))
    ensures SplitWords(a + rest) == SplitWords(rest)
  {
    TrimLeftOfBlank(a, rest);
    TrimLeftOfBlank("", rest);
    assert "" + rest == rest;
  }

  lemma BlankHasNoWord(a: string)
    requires Blank(a)
    ensures SplitWords(a) == []
  {
    TrimLeftAllBlank(a);
  }

  lemma SpacedStart(gaps: seq<string>, words: seq<string>)
    requires |gaps| == |words| + 1 && Gaps(gaps) && (words != [] ==> gaps[0] != "")
    ensures Spaced(gaps, words) == "" || BlankChar(Spaced(gaps, words)[0])
  {
  }

  lemma {:induction false} SplitOfSpaced(gaps: seq<string>, words: seq<string>)
    requires |gaps| == |words| + 1 && Gaps(gaps) && Words(words)
    ensures SplitWords(Spaced(gaps, words)) == words
  {
    hide SplitWords;
    if words == [] {
      BlankHasNoWord(gaps[0]);
    } else {
      var rest := Spaced(gaps[1..], words[1..]);
      assert forall i :: 0 <= i < |gaps[1..]| ==> gaps[1..][i] == gaps[i + 1];
      SplitOfSpaced(gaps[1..], words[1..]);
      SpacedStart(gaps[1..], words[1..]);
      assert Word(words[0]);
      assert (words[0] + rest)[0] == words[0][0];
      SplitAfterBlank(gaps[0], words[0] + rest);
      HttpRoundTrip.FirstWord(words[0], rest);
    }
  }

  /** The first word of a text, and the blank that ends it. */
  lemma WordEnds(t: string)
    requires t != "" && !BlankChar(t[0])
    ensures var n := WordLength(t);
      0 < n <= |t| && Word(t[..n]) && (n < |t| ==> BlankChar(t[n]))
  {
  }

  /** One more word in front. */
  lemma MoreSpaced(a: string, word: string, rest: seq<string>, words: seq<string>)
    requires Blank(a) && Word(word) && |rest| == |words| + 1 && Gaps(rest) && Words(words)
    requires words != [] ==> rest[0] != ""
    ensures Gaps([a] + rest) && Words([word] + words)
    ensures Spaced([a] + rest, [word] + words) == a + (word + Spaced(rest, words))
  {
    hide Blank, Word;
    var gaps := [a] + rest;
    assert gaps[1..] == rest && ([word] + words)[1..] == words;
    forall i | 0 < i < |gaps| - 1 ensures gaps[i] != "" {
      assert gaps[i] == rest[i - 1];
    }
  }

  lemma NoneSpaced(s: string)
    requires Blank(s)
    ensures Gaps([s]) && Words([]) && s == Spaced([s], [])
  {
  }

  lemma {:induction false} SpacedOfSplit(s: string) returns (gaps: seq<string>)
    ensures |gaps| == |SplitWords(s)| + 1 && Gaps(gaps) && s == Spaced(gaps, SplitWords(s))
    ensures SplitWords(s) != [] && BlankChar(s[0]) ==> gaps[0] != ""
    ensures Words(SplitWords(s))
    decreases |s|
  {
    hide *;
    var t := TrimLeft(s, IsWhite);
    var a := s[..|s| - |t|];
    TrimLeftParts(s);
    SplitFirstWord(s);
    if t == "" {
      gaps := [s];
      assert s == a;
      NoneSpaced(s);
    } else {
      var n := WordLength(t);
      WordEnds(t);
      NoWordsInNothing();
      var rest := SpacedOfSplit(t[n..]);
      gaps := [a] + rest;
      assert n < |t| ==> t[n..][0] == t[n];
      MoreSpaced(a, t[..n], rest, SplitWords(t[n..]));
      assert s == a + (t[..n] + t[n..]);
      assert a == "" ==> s == t;
    }
  }

  lemma NoWordsInNothing()
    ensures SplitWords("") == []
  {
  }

  /** The split of a line into words is the one way to read it as words between blanks. */
  lemma WordsExactly(line: string, words: seq<string>)
    ensures SplitWords(line) == words <==> LineOf(line, words)
  {
    hide SplitWords, Words, Gaps, Spaced;
    var gaps := SpacedOfSplit(line);
    if LineOf(line, words) {
      var others :| |others| == |words| + 1 && Gaps(others) && line == Spaced(others, words);
      SplitOfSpaced(others, words);
    }
  }

  /** The request line gives a method, a path and a version, which is HTTP/1.1 if the line has none. */
  ghost predicate RequestLineOf(line: string, verb: string, rawPath: string, version: string) {
    LineOf(line, [verb, rawPath, version]) || (LineOf(line, [verb, rawPath]) && version == "HTTP/1.1")
  }

  /** What is wrong with a request line: the number of its words. */
  ghost predicate RequestLineFault(line: string, e: ParseError) {
    exists words :: LineOf(line, words) &&
      ((words == [] && e == MissingMethod) || (|words| == 1 && e == MissingPath) || (|words| > 3 && e == InvalidRequestLine))
  }

  lemma RequestLineExactly(line: string, verb: string, rawPath: string, version: string)
    ensures ParseRequestLine(line) == Success((verb, rawPath, version)) <==> RequestLineOf(line, verb, rawPath, version)
  {
    hide SplitWords, LineOf;
    var words := SplitWords(line);
    WordsExactly(line, words);
    WordsExactly(line, [verb, rawPath, version]);
    WordsExactly(line, [verb, rawPath]);
    assert |words| == 3 ==> words == [words[0], words[1], words[2]];
    assert |words| == 2 ==> words == [words[0], words[1]];
  }

  lemma RequestLineFails(line: string, e: ParseError)
    ensures ParseRequestLine(line) == Failure(e) <==> RequestLineFault(line, e)
  {
    hide SplitWords, LineOf;
    var words := SplitWords(line);
    WordsExactly(line, words);
    if RequestLineFault(line, e) {
      var others :| LineOf(line, others) &&
        ((others == [] && e == MissingMethod) || (|others| == 1 && e == MissingPath) || (|others| > 3 && e == InvalidRequestLine));
      WordsExactly(line, others);
    }
  }

  // ---------------------------------------------------------------- header lines

  /** The line is this name and this value around a colon, with blanks allowed around both. */
  ghost predicate HeaderLineOf(line: string, h: Header) {
    && h.name != "" && Tight(h.name) && ':' !in h.name && Tight(h.value)
    && exists left, right :: Around(line, left, right, h)
  }

  ghost predicate Around(line: string, left: string, right: string, h: Header) {
    && line == left + ":" + right
    && (exists a, b :: Between(left, a, h.name, b))
    && (exists c, d :: Between(right, c, h.value, d))
  }

  /** A transfer coding that changes the body. */
  ghost predicate Coded(h: Header) {
    Lower(h.name) == "transfer-encoding" && h.value != "" && Lower(h.value) != "identity"
  }

  lemma CodedExactly(h: Header)
    ensures UnsupportedCoding(h) == Coded(h)
  {
    assert Lower("transfer-encoding") == "transfer-encoding";
    assert Lower("identity") == "identity";
  }

  lemma SplitAtColon(line: string) returns (left: string, right: string)
    requires ':' in line
    ensures FindColon(line) == Some(|left|) && line == left + ":" + right && ':' !in left
    ensures line[..|left|] == left && line[|left| + 1..] == right
  {
    var i := FindColon(line).value;
    left, right := line[..i], line[i + 1..];
  }

  lemma ColonOfBlank(left: string, a: string, t: string, b: string)
    requires Between(left, a, t, b) && ':' !in t
    ensures ':' !in left
  {
    forall i | 0 <= i < |left| ensures left[i] != ':' {
      assert left[i] == if i < |a| then a[i] else if i < |a| + |t| then t[i - |a|] else b[i - |a| - |t|];
    }
  }

  /** The parts of a header line that has a colon. */
  lemma HeaderParts(line: string, h: Header)
    requires ':' in line
    ensures var left, right := line[..FindColon(line).value], line[FindColon(line).value + 1..];
      h.name == Trim(left, IsWhite) && h.value == Trim(right, IsWhite) && h.name != "" <==> HeaderLineOf(line, h)
  {
    hide Trim, FindColon, Between, Tight;
    var left, right := SplitAtColon(line);
    var a, b := TrimBetween(left);
    var c, d := TrimBetween(right);
    if h.name == Trim(left, IsWhite) && h.value == Trim(right, IsWhite) && h.name != "" {
      NameHasNoColon(left, a, h.name, b);
      assert Around(line, left, right, h);
    }
    if HeaderLineOf(line, h) {
      var l, r :| Around(line, l, r, h);
      var a', b' :| Between(l, a', h.name, b');
      var c', d' :| Between(r, c', h.value, d');
      ColonOfBlank(l, a', h.name, b');
      HttpRoundTrip.FindColonAfter(l, r);
      assert l == left && r == right;
      TrimOfBetween(l, a', h.name, b');
      TrimOfBetween(r, c', h.value, d');
    }
  }

  lemma NameHasNoColon(left: string, a: string, t: string, b: string)
    requires Between(left, a, t, b) && ':' !in left
    ensures ':' !in t
  {
    forall i | 0 <= i < |t| ensures t[i] != ':' {
      assert left[|a| + i] == t[i];
    }
  }

  lemma HeaderLineHasColon(line: string, h: Header)
    requires HeaderLineOf(line, h)
    ensures ':' in line
  {
    var left, right :| Around(line, left, right, h);
    assert line[|left|] == ':';
  }

  /** A header line is accepted exactly if it is a name and a value around a colon, and no transfer coding. */
  lemma HeaderExactly(line: string, h: Header)
    ensures ParseHeaderLine(line) == Success(h) <==> HeaderLineOf(line, h) && !Coded(h)
  {
    hide *;
    NoColonNoneFound(line);
    CodedExactly(h);
    if HeaderLineOf(line, h) {
      HeaderLineHasColon(line, h);
    }
    if ':' in line {
      HeaderParts(line, h);
      HeaderRead(line, FindColon(line).value, h);
    } else {
      NotRead(line, h);
    }
  }

  lemma HeaderRead(line: string, i: nat, h: Header)
    requires FindColon(line) == Some(i)
    ensures ParseHeaderLine(line) == Success(h) <==>
      h == Header(Trim(line[..i], IsWhite), Trim(line[i + 1..], IsWhite)) && h.name != "" && !UnsupportedCoding(h)
  {
    hide Trim, FindColon, UnsupportedCoding;
  }

  lemma NotRead(line: string, h: Header)
    requires FindColon(line) == None
    ensures ParseHeaderLine(line) != Success(h)
  {
    hide Trim, FindColon, UnsupportedCoding;
  }

  lemma NoColonNoneFound(line: string)
    ensures FindColon(line).None? <==> ':' !in line
  {
  }

  /** What is wrong with a header line. */
  ghost predicate HeaderLineFault(line: string, e: ParseError) {
    || (':' !in line && e == InvalidHeaderLine)
    || ((exists a, rest :: Blank(a) && line == a + ":" + rest) && e == EmptyHeaderName)
    || ((exists h :: HeaderLineOf(line, h) && Coded(h)) && e == TransferEncodingUnsupported)
  }

  lemma BlankName(line: string)
    requires ':' in line
    ensures Trim(line[..FindColon(line).value], IsWhite) == "" <==> exists a, rest :: Blank(a) && line == a + ":" + rest
  {
    hide *;
    var left, right := SplitAtColon(line);
    if Trim(left, IsWhite) == "" {
      BlankIfTrimmedAway(left);
    }
    if exists a, rest :: Blank(a) && line == a + ":" + rest {
      var a, rest :| Blank(a) && line == a + ":" + rest;
      BlankNoColon(a);
      HttpRoundTrip.FindColonAfter(a, rest);
      assert (a + ":" + rest)[..|a|] == a;
      BlankIsTrimmedAway(a);
    }
  }

  lemma BlankIsTrimmedAway(a: string)
    requires Blank(a)
    ensures Trim(a, IsWhite) == ""
  {
    assert a == a + "" + "";
    TrimOfBetween(a, a, "", "");
  }

  lemma BlankIfTrimmedAway(a: string)
    requires Trim(a, IsWhite) == ""
    ensures Blank(a)
  {
    hide Trim, Blank;
    var c, d := TrimBetween(a);
    BlankTwice(c, d);
    assert a == c + d;
  }

  lemma BlankTwice(a: string, b: string)
    requires Blank(a) && Blank(b)
    ensures Blank(a + b)
  {
  }

  lemma BlankNoColon(a: string)
    requires Blank(a)
    ensures ':' !in a
  {
  }

  lemma NoColonFails(line: string, e: ParseError)
    requires ':' !in line
    ensures ParseHeaderLine(line) == Failure(InvalidHeaderLine)
    ensures HeaderLineFault(line, e) <==> e == InvalidHeaderLine
  {
    hide Trim, HeaderLineOf, UnsupportedCoding, Coded, FindColon, Blank, IsWhite;
    NoColonNoneFound(line);
    forall g ensures !HeaderLineOf(line, g) {
      if HeaderLineOf(line, g) {
        HeaderLineHasColon(line, g);
      }
    }
    forall a: string, rest: string ensures line != a + ":" + rest {
      assert (a + ":" + rest)[|a|] == ':';
    }
  }

  /** The one header a line with a colon can give. */
  lemma OnlyHeader(line: string) returns (h: Header)
    requires ':' in line
    ensures FindColon(line).Some?
    ensures h == Header(Trim(line[..FindColon(line).value], IsWhite), Trim(line[FindColon(line).value + 1..], IsWhite))
    ensures h.name == "" <==> exists a, rest :: Blank(a) && line == a + ":" + rest
    ensures HeaderLineOf(line, h) <==> h.name != ""
    ensures forall g :: HeaderLineOf(line, g) ==> g == h
  {
    hide *;
    NoColonNoneFound(line);
    var i := FindColon(line).value;
    h := Header(Trim(line[..i], IsWhite), Trim(line[i + 1..], IsWhite));
    BlankName(line);
    HeaderParts(line, h);
    forall g | HeaderLineOf(line, g) ensures g == h {
      HeaderParts(line, g);
    }
  }

  lemma FaultOfHeader(line: string, e: ParseError, h: Header)
    requires ':' in line
    requires h.name == "" <==> exists a, rest :: Blank(a) && line == a + ":" + rest
    requires HeaderLineOf(line, h) <==> h.name != ""
    requires forall g :: HeaderLineOf(line, g) ==> g == h
    ensures HeaderLineFault(line, e) <==>
      e == (if h.name == "" then EmptyHeaderName else TransferEncodingUnsupported) && (h.name == "" || Coded(h))
  {
    hide HeaderLineOf, Coded, Blank;
  }

  lemma ColonFails(line: string, e: ParseError)
    requires ':' in line
    ensures ParseHeaderLine(line) == Failure(e) <==> HeaderLineFault(line, e)
  {
    hide *;
    var h := OnlyHeader(line);
    CodedExactly(h);
    LineOfOne(line, h);
    FaultOfHeader(line, e, h);
  }

  lemma LineOfOne(line: string, h: Header)
    requires FindColon(line).Some?
    requires h == Header(Trim(line[..FindColon(line).value], IsWhite), Trim(line[FindColon(line).value + 1..], IsWhite))
    ensures ParseHeaderLine(line) ==
      if h.name == "" then Failure(EmptyHeaderName)
      else if UnsupportedCoding(h) then Failure(TransferEncodingUnsupported) else Success(h)
  {
    hide Trim, UnsupportedCoding, FindColon;
  }

  lemma HeaderFails(line: string, e: ParseError)
    ensures ParseHeaderLine(line) == Failure(e) <==> HeaderLineFault(line, e)
  {
    hide *;
    if ':' in line {
      ColonFails(line, e);
    } else {
      NoColonFails(line, e);
    }
  }

  /** The lines that are not empty. */
  ghost function Filled(lines: seq<string>): seq<string> {
    if lines == [] then []
    else (if lines[0] == "" then [] else [lines[0]]) + Filled(lines[1..])
  }

  ghost predicate HeadersOf(lines: seq<string>, headers: seq<Header>) {
    && |lines| == |headers|
    && forall i :: 0 <= i < |lines| ==> HeaderLineOf(lines[i], headers[i]) && !Coded(headers[i])
  }

  /** The first line at fault, and the lines before it without fault. */
  ghost predicate HeadersFault(lines: seq<string>, e: ParseError) {
    exists i :: 0 <= i < |lines| && HeaderLineFault(lines[i], e) && FineBefore(lines, i)
  }

  ghost predicate FineBefore(lines: seq<string>, i: nat)
    requires i <= |lines|
  {
    forall j :: 0 <= j < i ==> FineLine(lines[j])
  }

  ghost predicate FineLine(line: string) {
    exists h :: HeaderLineOf(line, h) && !Coded(h)
  }

  lemma FaultFirst(line: string, rest: seq<string>, e: ParseError)
    requires HeadersFault([line] + rest, e)
    ensures HeaderLineFault(line, e) || (FineLine(line) && HeadersFault(rest, e))
  {
    hide HeaderLineFault, FineLine;
    var lines := [line] + rest;
    var i :| 0 <= i < |lines| && HeaderLineFault(lines[i], e) && FineBefore(lines, i);
    if i > 0 {
      assert FineLine(lines[0]);
      forall j | 0 <= j < i - 1 ensures FineLine(rest[j]) {
        assert FineLine(lines[j + 1]);
      }
      assert HeaderLineFault(rest[i - 1], e) && FineBefore(rest, i - 1);
    }
  }

  lemma FaultLater(line: string, rest: seq<string>, e: ParseError)
    requires HeaderLineFault(line, e) || (FineLine(line) && HeadersFault(rest, e))
    ensures HeadersFault([line] + rest, e)
  {
    hide HeaderLineFault, FineLine;
    var lines := [line] + rest;
    if HeaderLineFault(line, e) {
      assert HeaderLineFault(lines[0], e) && FineBefore(lines, 0);
    } else {
      var i :| 0 <= i < |rest| && HeaderLineFault(rest[i], e) && FineBefore(rest, i);
      forall j | 0 <= j < i + 1 ensures FineLine(lines[j]) {
        if j > 0 {
          assert FineLine(rest[j - 1]);
        }
      }
      assert HeaderLineFault(lines[i + 1], e) && FineBefore(lines, i + 1);
    }
  }

  lemma FaultStep(line: string, rest: seq<string>, e: ParseError)
    ensures HeadersFault([line] + rest, e) <==> HeaderLineFault(line, e) || (FineLine(line) && HeadersFault(rest, e))
  {
    hide *;
    if HeadersFault([line] + rest, e) {
      FaultFirst(line, rest, e);
    }
    if HeaderLineFault(line, e) || (FineLine(line) && HeadersFault(rest, e)) {
      FaultLater(line, rest, e);
    }
  }

  lemma {:induction false} HeadersExactly(lines: seq<string>, headers: seq<Header>)
    ensures ParseHeaderLines(lines) == Success(headers) <==> HeadersOf(Filled(lines), headers)
    decreases |lines|
  {
    hide ParseHeaderLine, HeaderLineOf, Coded;
    if lines != [] {
      var rest := Filled(lines[1..]);
      if lines[0] == "" {
        HeadersExactly(lines[1..], headers);
        assert [] + rest == rest;
      } else if headers != [] {
        HeaderExactly(lines[0], headers[0]);
        HeadersExactly(lines[1..], headers[1..]);
        assert headers == [headers[0]] + headers[1..];
        HeadersStep(lines[0], rest, headers);
      }
    }
  }

  lemma HeadersStep(line: string, rest: seq<string>, headers: seq<Header>)
    requires headers != []
    ensures HeadersOf([line] + rest, headers) <==>
      HeaderLineOf(line, headers[0]) && !Coded(headers[0]) && HeadersOf(rest, headers[1..])
  {
    hide HeaderLineOf, Coded;
    var lines := [line] + rest;
    assert forall i :: 0 <= i < |rest| ==> lines[i + 1] == rest[i];
    assert forall i :: 0 <= i < |headers[1..]| ==> headers[1..][i] == headers[i + 1];
    if HeaderLineOf(line, headers[0]) && !Coded(headers[0]) && HeadersOf(rest, headers[1..]) {
      forall i | 0 <= i < |lines| ensures HeaderLineOf(lines[i], headers[i]) && !Coded(headers[i]) {
        if i > 0 {
          assert lines[i] == rest[i - 1] && headers[i] == headers[1..][i - 1];
        }
      }
    }
    if HeadersOf(lines, headers) {
      assert lines[0] == line;
      forall i | 0 <= i < |rest| ensures HeaderLineOf(rest[i], headers[1..][i]) && !Coded(headers[1..][i]) {
        assert lines[i + 1] == rest[i];
      }
    }
  }

  lemma {:induction false} HeadersFail(lines: seq<string>, e: ParseError)
    ensures ParseHeaderLines(lines) == Failure(e) <==> HeadersFault(Filled(lines), e)
    decreases |lines|
  {
    hide ParseHeaderLine, HeaderLineFault, HeaderLineOf, Coded, HeadersFault;
    if lines == [] {
      NoFault(e);
    } else {
      var rest := Filled(lines[1..]);
      HeadersFail(lines[1..], e);
      if lines[0] == "" {
        assert [] + rest == rest;
      } else {
        FaultStep(lines[0], rest, e);
        HeaderFails(lines[0], e);
        var r := ParseHeaderLine(lines[0]);
        if r.Success? {
          HeaderExactly(lines[0], r.value);
        } else {
          forall h ensures !(HeaderLineOf(lines[0], h) && !Coded(h)) {
            HeaderExactly(lines[0], h);
          }
        }
      }
    }
  }

  lemma NoFault(e: ParseError)
    ensures !HeadersFault([], e)
  {
  }

  // ---------------------------------------------------------------- Content-Length

  ghost predicate IsLength(h: Header) {
    Lower(h.name) == "content-length"
  }

  /** The header's value is this number, written with an optional plus sign and leading zeros, and it fits 64 bits. */
  ghost predicate Declares(h: Header, n: nat) {
    Denotes(h.value, n) && n < 0x1_0000_0000_0000_0000
  }

  ghost predicate LengthOf(headers: seq<Header>, n: nat) {
    && (forall i :: 0 <= i < |headers| && IsLength(headers[i]) ==> Declares(headers[i], n))
    && ((forall i :: 0 <= i < |headers| ==> !IsLength(headers[i])) ==> n == 0)
  }

  /** The first header whose length is malformed, or differs from the one declared before. */
  ghost predicate LengthFault(headers: seq<Header>, e: ParseError) {
    exists i :: 0 <= i < |headers| && IsLength(headers[i]) && Consistent(headers[..i]) && FaultOfLength(headers[i], headers[..i], e)
  }

  ghost predicate FaultOfLength(h: Header, before: seq<Header>, e: ParseError) {
    || ((forall n: nat :: !Declares(h, n)) && e == InvalidContentLength)
    || ((exists n: nat :: Declares(h, n) && !LengthsAre(before, n)) && e == ConflictingContentLength)
  }

  /** One number for all lengths declared. */
  ghost predicate Consistent(headers: seq<Header>) {
    exists n: nat :: LengthsAre(headers, n)
  }

  ghost predicate LengthsAre(headers: seq<Header>, n: nat) {
    forall i :: 0 <= i < |headers| && IsLength(headers[i]) ==> Declares(headers[i], n)
  }

  lemma IsLengthExactly(h: Header)
    ensures IsContentLength(h) == IsLength(h)
  {
    assert Lower("content-length") == "content-length";
  }

  lemma DeclaresExactly(h: Header, n: nat)
    ensures Declares(h, n) <==> ParseUsize(h.value) == Success(n)
  {
    UsizeExactly(h.value, n);
    hide ParseUsize, Denotes;
  }

  /** What the fold has seen, told by the headers behind it. */
  ghost predicate Seen(headers: seq<Header>, seen: Option<nat>) {
    match seen
    case Some(n) => LengthsAre(headers, n) && exists i :: 0 <= i < |headers| && IsLength(headers[i])
    case None => forall i :: 0 <= i < |headers| ==> !IsLength(headers[i])
  }

  lemma SeenNext(before: seq<Header>, seen: Option<nat>, h: Header, n: nat)
    requires Seen(before, seen) && IsLength(h) && Declares(h, n) && (seen.None? || seen.value == n)
    ensures Seen(before + [h], Some(n))
  {
    hide IsLength, Declares;
    assert (before + [h])[|before|] == h;
  }

  lemma SeenOther(before: seq<Header>, seen: Option<nat>, h: Header)
    requires Seen(before, seen) && !IsLength(h)
    ensures Seen(before + [h], seen)
  {
    hide IsLength, Declares;
    if seen.Some? {
      var i :| 0 <= i < |before| && IsLength(before[i]);
      assert (before + [h])[i] == before[i];
    }
  }

  lemma SeenIsConsistent(before: seq<Header>, seen: Option<nat>)
    requires Seen(before, seen)
    ensures Consistent(before)
  {
    hide IsLength, Declares;
    if seen.None? {
      assert LengthsAre(before, 0);
    }
  }

  /** The outcome of the fold, told by all the headers. */
  ghost predicate FoldOf(headers: seq<Header>, r: Result<Option<nat>, ParseError>) {
    match r
    case Success(seen) => Seen(headers, seen)
    case Failure(e) => LengthFault(headers, e)
  }

  lemma OneNumber(h: Header, n: nat, m: nat)
    requires Declares(h, n) && Declares(h, m)
    ensures n == m
  {
    hide Declares;
    DeclaresExactly(h, n);
    DeclaresExactly(h, m);
  }

  lemma {:induction false} FoldExactly(before: seq<Header>, headers: seq<Header>, seen: Option<nat>)
    requires Seen(before, seen)
    ensures FoldOf(before + headers, ContentLengthFrom(headers, seen))
    decreases |headers|
  {
    hide IsContentLength, IsLength, Declares, ParseUsize, Seen, LengthFault;
    if headers == [] {
      assert before + headers == before;
    } else {
      var h, rest := headers[0], headers[1..];
      assert before + headers == before + [h] + rest;
      IsLengthExactly(h);
      if !IsLength(h) {
        SeenOther(before, seen, h);
        FoldExactly(before + [h], rest, seen);
      } else {
        var n := ParseUsize(h.value);
        if n.Success? && (seen.None? || seen.value == n.value) {
          DeclaresExactly(h, n.value);
          SeenNext(before, seen, h, n.value);
          FoldExactly(before + [h], rest, Some(n.value));
        } else {
          FaultHere(before, h, rest, seen);
        }
      }
    }
  }

  lemma FaultHere(before: seq<Header>, h: Header, rest: seq<Header>, seen: Option<nat>)
    requires Seen(before, seen) && IsLength(h)
    requires var n := ParseUsize(h.value); n.Failure? || (seen.Some? && seen.value != n.value)
    ensures LengthFault(before + [h] + rest,
      if ParseUsize(h.value).Failure? then InvalidContentLength else ConflictingContentLength)
  {
    hide IsLength, Declares, ParseUsize;
    var headers := before + [h] + rest;
    assert headers[|before|] == h && headers[..|before|] == before;
    SeenIsConsistent(before, seen);
    var n := ParseUsize(h.value);
    if n.Failure? {
      forall m: nat ensures !Declares(h, m) {
        DeclaresExactly(h, m);
      }
    } else {
      DeclaresExactly(h, n.value);
      if LengthsAre(before, n.value) {
        var i :| 0 <= i < |before| && IsLength(before[i]);
        OneNumber(before[i], n.value, seen.value);
      }
    }
  }

  /** The declared length is n exactly if every Content-Length header denotes n, and n is 0 if there is none. */
  lemma LengthExactly(headers: seq<Header>, n: nat)
    ensures ContentLength(headers) == Success(n) <==> LengthOf(headers, n)
  {
    hide ContentLengthFrom, IsLength, Declares, LengthFault;
    assert [] + headers == headers;
    FoldExactly([], headers, None);
    var r := ContentLengthFrom(headers, None);
    if r.Failure? {
      FaultIsNoLength(headers, r.error, n);
    } else if r.value.Some? {
      var i :| 0 <= i < |headers| && IsLength(headers[i]);
      if LengthOf(headers, n) {
        OneNumber(headers[i], n, r.value.value);
      }
    }
  }

  lemma FaultIsNoLength(headers: seq<Header>, e: ParseError, n: nat)
    requires LengthFault(headers, e)
    ensures !LengthOf(headers, n)
  {
    hide IsLength, Declares;
    if LengthOf(headers, n) {
      var i :| 0 <= i < |headers| && IsLength(headers[i]) && Consistent(headers[..i]) && FaultOfLength(headers[i], headers[..i], e);
      if exists m: nat :: Declares(headers[i], m) && !LengthsAre(headers[..i], m) {
        var m: nat :| Declares(headers[i], m) && !LengthsAre(headers[..i], m);
        assert LengthsAre(headers[..i], n);
        OneNumber(headers[i], m, n);
      }
    }
  }

  lemma LengthFails(headers: seq<Header>, e: ParseError)
    ensures ContentLength(headers) == Failure(e) <==> LengthFault(headers, e)
  {
    hide ContentLengthFrom, IsLength, Declares, LengthFault, Seen;
    assert [] + headers == headers;
    NothingSeen();
    FoldExactly([], headers, None);
    var r := ContentLengthFrom(headers, None);
    if LengthFault(headers, e) {
      if r.Success? {
        SeenHasLength(headers, r.value);
        FaultIsNoLength(headers, e, if r.value.Some? then r.value.value else 0);
      } else {
        OneFault(headers, e, r.error);
      }
    }
  }

  lemma NothingSeen()
    ensures Seen([], None)
  {
  }

  lemma SeenHasLength(headers: seq<Header>, seen: Option<nat>)
    requires Seen(headers, seen)
    ensures LengthOf(headers, if seen.Some? then seen.value else 0)
  {
    hide IsLength, Declares;
  }

  /** Only the first fault counts. */
  lemma OneFault(headers: seq<Header>, e: ParseError, f: ParseError)
    requires LengthFault(headers, e) && LengthFault(headers, f)
    ensures e == f
  {
    hide IsLength, Declares, Consistent, LengthsAre;
    var i :| 0 <= i < |headers| && IsLength(headers[i]) && Consistent(headers[..i]) && FaultOfLength(headers[i], headers[..i], e);
    var j :| 0 <= j < |headers| && IsLength(headers[j]) && Consistent(headers[..j]) && FaultOfLength(headers[j], headers[..j], f);
    if i < j {
      InconsistentAfter(headers, i, j, e);
    } else if j < i {
      InconsistentAfter(headers, j, i, f);
    }
  }

  lemma InconsistentAfter(headers: seq<Header>, i: nat, j: nat, e: ParseError)
    requires i < j <= |headers| && IsLength(headers[i]) && FaultOfLength(headers[i], headers[..i], e)
    ensures !Consistent(headers[..j])
  {
    hide IsLength, Declares;
    if Consistent(headers[..j]) {
      var n: nat :| LengthsAre(headers[..j], n);
      assert headers[..j][i] == headers[i];
      assert Declares(headers[i], n);
      var m: nat :| Declares(headers[i], m) && !LengthsAre(headers[..i], m);
      forall k | 0 <= k < i && IsLength(headers[..i][k]) ensures Declares(headers[..i][k], n) {
        assert headers[..j][k] == headers[..i][k];
      }
      assert LengthsAre(headers[..i], n);
      OneNumber(headers[i], n, m);
    }
  }

  // ---------------------------------------------------------------- header sections

  /** The text is these lines, with line ends between them and nowhere else. */
  ghost predicate LinesOf(text: string, lines: seq<string>) {
    lines != [] && JoinLines(lines) == text && forall i :: 0 <= i < |lines| ==> CrlfFree(lines[i])
  }

  /** The header section is a good request line, good header lines, and one length of at most 8 MiB. */
  ghost predicate SectionOf(text: string, head: Head) {
    exists lines :: LinesOf(text, lines)
      && RequestLineOf(lines[0], head.verb, head.rawPath, head.version)
      && HeadersOf(Filled(lines[1..]), head.headers)
      && LengthOf(head.headers, head.length) && head.length <= 8388608
  }

  lemma LinesExactly(text: string, lines: seq<string>)
    ensures LinesOf(text, lines) <==> SplitLines(text) == lines
  {
    hide SplitLines, JoinLines, CrlfFree;
    if lines != [] {
      HttpRoundTrip.SplitExactly(text, lines);
    }
  }

  /** A header section is accepted exactly if it has this shape. */
  lemma SectionExactly(text: string, head: Head)
    ensures ParseHead(text) == Success(head) <==> SectionOf(text, head)
  {
    hide SplitLines, ParseHead, JoinLines, CrlfFree, RequestLineOf, HeadersOf, LengthOf, Filled, ParseRequestLine,
      ParseHeaderLines, ContentLength;
    var lines := SplitLines(text);
    LinesExactly(text, lines);
    if SectionOf(text, head) {
      var others :| LinesOf(text, others)
        && RequestLineOf(others[0], head.verb, head.rawPath, head.version)
        && HeadersOf(Filled(others[1..]), head.headers)
        && LengthOf(head.headers, head.length) && head.length <= 8388608;
      LinesExactly(text, others);
    }
    RequestLineExactly(lines[0], head.verb, head.rawPath, head.version);
    HeadersExactly(lines[1..], head.headers);
    LengthExactly(head.headers, head.length);
    HeadParts(text, head);
  }

  lemma HeadParts(text: string, head: Head)
    ensures var lines := SplitLines(text);
      ParseHead(text) == Success(head) <==>
        && ParseRequestLine(lines[0]) == Success((head.verb, head.rawPath, head.version))
        && ParseHeaderLines(lines[1..]) == Success(head.headers)
        && ContentLength(head.headers) == Success(head.length) && head.length <= 8388608
  {
    hide SplitLines, ParseRequestLine, ParseHeaderLines, ContentLength;
    var lines := SplitLines(text);
    var line := ParseRequestLine(lines[0]);
    if line.Success? {
      assert line.value == (line.value.0, line.value.1, line.value.2);
      var headers := ParseHeaderLines(lines[1..]);
      if headers.Success? {
        var n := ContentLength(headers.value);
        if n.Success? && n.value <= 8388608 {
          assert ParseHead(text) ==
            Success(Head(line.value.0, line.value.1, line.value.2, headers.value, n.value));
        }
      }
    }
  }

  /** What is answered to a section: the first fault, looked for in the request line, then the header lines, then the length. */
  ghost predicate SectionFault(text: string, e: ParseError) {
    exists lines :: LinesOf(text, lines) &&
      (RequestLineFault(lines[0], e) ||
       (GoodRequestLine(lines[0]) &&
        (HeadersFault(Filled(lines[1..]), e) ||
         exists headers :: HeadersOf(Filled(lines[1..]), headers) && LengthsFault(headers, e))))
  }

  ghost predicate GoodRequestLine(line: string) {
    exists verb, rawPath, version :: RequestLineOf(line, verb, rawPath, version)
  }

  ghost predicate LengthsFault(headers: seq<Header>, e: ParseError) {
    LengthFault(headers, e) || ((exists n: nat :: LengthOf(headers, n) && n > 8388608) && e == BodyTooLarge)
  }

  lemma LengthsFail(headers: seq<Header>, e: ParseError)
    ensures LengthsFault(headers, e) <==>
      match ContentLength(headers) { case Failure(f) => e == f case Success(n) => n > 8388608 && e == BodyTooLarge }
  {
    hide ContentLength, LengthFault, LengthOf;
    LengthFails(headers, e);
    var r := ContentLength(headers);
    forall n: nat ensures LengthOf(headers, n) <==> r == Success(n) {
      LengthExactly(headers, n);
    }
  }

  lemma GoodLine(line: string)
    ensures GoodRequestLine(line) <==> ParseRequestLine(line).Success?
  {
    hide ParseRequestLine, RequestLineOf;
    var r := ParseRequestLine(line);
    if r.Success? {
      var (verb, rawPath, version) := r.value;
      RequestLineExactly(line, verb, rawPath, version);
    }
    if GoodRequestLine(line) {
      var verb, rawPath, version :| RequestLineOf(line, verb, rawPath, version);
      RequestLineExactly(line, verb, rawPath, version);
    }
  }

  lemma FaultOfLines(lines: seq<string>, e: ParseError)
    requires lines != []
    ensures
      (RequestLineFault(lines[0], e) ||
       (GoodRequestLine(lines[0]) &&
        (HeadersFault(Filled(lines[1..]), e) ||
         exists headers :: HeadersOf(Filled(lines[1..]), headers) && LengthsFault(headers, e)))) <==>
      match ParseRequestLine(lines[0]) {
        case Failure(f) => e == f
        case Success(_) =>
          match ParseHeaderLines(lines[1..]) {
            case Failure(f) => e == f
            case Success(headers) => LengthsFault(headers, e)
          }
      }
  {
    hide *;
    RequestLineFails(lines[0], e);
    GoodLine(lines[0]);
    HeadersFail(lines[1..], e);
    var r := ParseHeaderLines(lines[1..]);
    forall headers ensures HeadersOf(Filled(lines[1..]), headers) <==> r == Success(headers) {
      HeadersExactly(lines[1..], headers);
    }
  }

  lemma SectionFails(text: string, e: ParseError)
    ensures ParseHead(text) == Failure(e) <==> SectionFault(text, e)
  {
    hide SplitLines, ParseRequestLine, ParseHeaderLines, ContentLength, JoinLines, CrlfFree, RequestLineFault, GoodRequestLine,
      HeadersFault, HeadersOf, LengthsFault, Filled;
    var lines := SplitLines(text);
    LinesExactly(text, lines);
    FaultOfLines(lines, e);
    forall others | LinesOf(text, others) ensures others == lines {
      LinesExactly(text, others);
    }
    var r := ParseHeaderLines(lines[1..]);
    if r.Success? {
      LengthsFail(r.value, e);
    }
  }

  // ---------------------------------------------------------------- requests

  ghost predicate BlankLineEndsAt(s: string, e: nat) {
    4 <= e <= |s| && s[e - 4..e] == "\r\n\r\n"
  }

  /** The first blank line ends at `e`. */
  ghost predicate SectionEnds(s: string, e: nat) {
    BlankLineEndsAt(s, e) && forall k: nat :: k < e ==> !BlankLineEndsAt(s, k)
  }

  lemma BlankLineExactly(s: string, e: nat)
    ensures BlankLineEndsAt(s, e) == TerminatorEndsAt(s, e)
  {
    if 4 <= e <= |s| {
      var t := s[e - 4..e];
      assert t[0] == s[e - 4] && t[1] == s[e - 3] && t[2] == s[e - 2] && t[3] == s[e - 1];
    }
  }

  lemma SectionEndsExactly(s: string, e: nat)
    ensures SectionEnds(s, e) <==> FindHeaderTerminator(s) == Some(e)
  {
    hide FindHeaderTerminator, BlankLineEndsAt, TerminatorEndsAt;
    forall k: nat ensures BlankLineEndsAt(s, k) == TerminatorEndsAt(s, k) {
      BlankLineExactly(s, k);
    }
  }

  /** The request is told by the section up to the first blank line, and its body is the declared number of bytes after it. */
  ghost predicate RequestOf(s: string, request: Request) {
    exists e: nat :: SectionEnds(s, e)
      && SectionOf(s[..e], Head(request.verb, request.rawPath, request.version, request.headers, |request.body|))
      && e + |request.body| <= |s| && request.body == s[e..e + |request.body|]
  }

  /** A byte string is accepted exactly if it starts with a request of this shape, and that request is the result. */
  lemma RequestExactly(s: string, request: Request)
    ensures ParseOnce(s) == Success(request) <==> RequestOf(s, request)
  {
    hide SectionEnds, SectionOf, FindHeaderTerminator, ParseHead;
    forall e: nat ensures SectionEnds(s, e) <==> FindHeaderTerminator(s) == Some(e) {
      SectionEndsExactly(s, e);
    }
    var found := FindHeaderTerminator(s);
    if found.Some? {
      var e := found.value;
      assert SectionEnds(s, e);
      var head := Head(request.verb, request.rawPath, request.version, request.headers, |request.body|);
      SectionExactly(s[..e], head);
    }
  }

  /** In an accepted request every Transfer-Encoding header is empty or says identity. */
  lemma CodingIsRefused(s: string, h: Header)
    requires ParseOnce(s).Success? && h in ParseOnce(s).value.headers && Lower(h.name) == "transfer-encoding"
    ensures h.value == "" || Lower(h.value) == "identity"
  {
    var request := ParseOnce(s).value;
    RequestExactly(s, request);
    hide ParseOnce, SectionEnds, LinesOf, RequestLineOf, LengthOf, HeaderLineOf, Filled;
    var e: nat :| SectionEnds(s, e)
      && SectionOf(s[..e], Head(request.verb, request.rawPath, request.version, request.headers, |request.body|));
  }

  /** And a request whose first header line at fault is such a header is answered with that error. */
  lemma CodingIsTheError(s: string, e: nat, lines: seq<string>, i: nat, h: Header)
    requires SectionEnds(s, e) && LinesOf(s[..e], lines) && GoodRequestLine(lines[0])
    requires i < |Filled(lines[1..])| && FineBefore(Filled(lines[1..]), i) && HeaderLineOf(Filled(lines[1..])[i], h)
    requires Lower(h.name) == "transfer-encoding" && h.value != "" && Lower(h.value) != "identity"
    ensures ParseOnce(s) == Failure(TransferEncodingUnsupported)
  {
    hide SectionEnds, FindHeaderTerminator, ParseHead, JoinLines, CrlfFree, GoodRequestLine, HeaderLineOf, Filled;
    SectionEndsExactly(s, e);
    assert Coded(h) && HeaderLineFault(Filled(lines[1..])[i], TransferEncodingUnsupported);
    assert HeadersFault(Filled(lines[1..]), TransferEncodingUnsupported);
    SectionFails(s[..e], TransferEncodingUnsupported);
  }

  // ---------------------------------------------------------------- what reads decide

  /** These bytes are more than 64 KiB and hold no whole header section. */
  ghost predicate Overfull(s: string) {
    |s| > 65536 && forall e: nat :: !BlankLineEndsAt(s, e)
  }

  lemma SectionErrors(text: string)
    ensures ParseHead(text) != Failure(HeadersTooLarge) && ParseHead(text) != Failure(EmptyRequest)
    ensures ParseHead(text) != Failure(BodyTruncated)
  {
    hide *;
    forall e | e == HeadersTooLarge || e == EmptyRequest || e == BodyTruncated ensures !SectionFault(text, e) {
      OtherErrors(text, e);
    }
    SectionFails(text, HeadersTooLarge);
    SectionFails(text, EmptyRequest);
    SectionFails(text, BodyTruncated);
  }

  lemma OtherErrors(text: string, e: ParseError)
    requires e == HeadersTooLarge || e == EmptyRequest || e == BodyTruncated
    ensures !SectionFault(text, e)
  {
    hide LinesOf, GoodRequestLine, HeadersOf, LineOf, HeaderLineOf, LengthOf, Filled, FineBefore, Consistent, IsLength, Declares;
  }

  lemma PrefixHasNoBlankLine(all: string, prefix: string, e: nat)
    requires prefix <= all && SectionEnds(all, e)
    ensures (forall k: nat :: !BlankLineEndsAt(prefix, k)) <==> |prefix| < e
  {
    forall k: nat ensures BlankLineEndsAt(prefix, k) <==> k <= |prefix| && BlankLineEndsAt(all, k) {
      if 4 <= k <= |prefix| {
        assert prefix[k - 4..k] == all[k - 4..k];
      }
    }
  }

  /** The size error is the answer exactly if some reads together are more than 64 KiB without a blank line. */
  lemma SizeLimit(chunks: seq<string>)
    ensures HttpReader.ReaderResult(chunks) == Failure(HeadersTooLarge) <==>
      exists k :: 0 <= k <= |chunks| && Overfull(HttpReader.Concat(chunks[..k]))
  {
    hide FindHeaderTerminator, ParseHead, HttpReader.Concat, BlankLineEndsAt;
    var s := HttpReader.Concat(chunks);
    forall e: nat ensures BlankLineEndsAt(s, e) == TerminatorEndsAt(s, e) {
      BlankLineExactly(s, e);
    }
    assert chunks[..|chunks|] == chunks;
    forall k | 0 <= k <= |chunks| ensures HttpReader.Concat(chunks[..k]) <= s {
      HttpReader.ConcatPrefix(chunks, k);
    }
    var found := FindHeaderTerminator(s);
    if found.Some? {
      var e := found.value;
      SectionErrors(s[..e]);
      assert SectionEnds(s, e);
      forall k | 0 <= k <= |chunks|
        ensures Overfull(HttpReader.Concat(chunks[..k])) <==> 65536 < |HttpReader.Concat(chunks[..k])| < e
      {
        PrefixHasNoBlankLine(s, HttpReader.Concat(chunks[..k]), e);
      }
    } else if exists k :: 0 <= k <= |chunks| && Overfull(HttpReader.Concat(chunks[..k])) {
      var k :| 0 <= k <= |chunks| && Overfull(HttpReader.Concat(chunks[..k]));
      assert |HttpReader.Concat(chunks[..k])| <= |s|;
    }
  }

  /** Reads that end before a blank line, within 64 KiB, are answered as empty. */
  lemma EndsTooEarly(chunks: seq<string>)
    ensures HttpReader.ReaderResult(chunks) == Failure(EmptyRequest) <==>
      var s := HttpReader.Concat(chunks);
      |s| <= 65536 && forall e: nat :: !BlankLineEndsAt(s, e)
  {
    hide FindHeaderTerminator, ParseHead, HttpReader.Concat, BlankLineEndsAt, HttpReader.LimitTrips, SectionOf;
    var s := HttpReader.Concat(chunks);
    forall e: nat ensures BlankLineEndsAt(s, e) == TerminatorEndsAt(s, e) {
      BlankLineExactly(s, e);
    }
    var found := FindHeaderTerminator(s);
    if found.Some? {
      SectionErrors(s[..found.value]);
    }
  }

  /** The header section up to the first blank line is at fault, or the body ends too early. */
  ghost predicate RequestFault(s: string, e: ParseError) {
    exists end: nat :: SectionEnds(s, end) &&
      (SectionFault(s[..end], e) || (e == BodyTruncated && EndsEarly(s, end)))
  }

  ghost predicate EndsEarly(s: string, end: nat)
    requires end <= |s|
  {
    exists head :: SectionOf(s[..end], head) && |s| < end + head.length
  }

  lemma EndsEarlyExactly(s: string, end: nat)
    requires end <= |s|
    ensures EndsEarly(s, end) <==> ParseHead(s[..end]).Success? && |s| < end + ParseHead(s[..end]).value.length
  {
    hide ParseHead, SectionOf;
    forall head ensures SectionOf(s[..end], head) <==> ParseHead(s[..end]) == Success(head) {
      SectionExactly(s[..end], head);
    }
  }

  lemma RequestFails(s: string, end: nat, e: ParseError)
    requires FindHeaderTerminator(s) == Some(end)
    ensures ParseOnce(s) == Failure(e) <==> RequestFault(s, e)
  {
    hide FindHeaderTerminator, SectionFault, EndsEarly, SectionEnds, ParseHead;
    forall k: nat ensures SectionEnds(s, k) <==> k == end {
      SectionEndsExactly(s, k);
    }
    EndsEarlyExactly(s, end);
    SectionFails(s[..end], e);
  }

  /** Every other error is the answer exactly if the bytes together have that fault and no reads overfill the limit. */
  lemma ReadFails(chunks: seq<string>, e: ParseError)
    requires e != HeadersTooLarge && e != EmptyRequest
    ensures HttpReader.ReaderResult(chunks) == Failure(e) <==>
      RequestFault(HttpReader.Concat(chunks), e) &&
      forall k :: 0 <= k <= |chunks| ==> !Overfull(HttpReader.Concat(chunks[..k]))
  {
    hide ParseOnce, RequestFault, HttpReader.LimitTrips, Overfull, FindHeaderTerminator, HttpReader.Concat;
    var s := HttpReader.Concat(chunks);
    SizeLimit(chunks);
    if FindHeaderTerminator(s).Some? {
      RequestFails(s, FindHeaderTerminator(s).value, e);
    } else {
      NoSectionNoFault(s, e);
    }
  }

  lemma NoSectionNoFault(s: string, e: ParseError)
    requires FindHeaderTerminator(s) == None && e != HeadersTooLarge && e != EmptyRequest
    ensures ParseOnce(s) != Failure(e) && !RequestFault(s, e)
  {
    hide FindHeaderTerminator, SectionFault, EndsEarly, SectionEnds, ParseHead;
    forall k: nat ensures !SectionEnds(s, k) {
      SectionEndsExactly(s, k);
    }
  }

  /** What is accepted from reads is the request that all their bytes together begin with. */
  lemma ReadExactly(chunks: seq<string>, request: Request)
    ensures HttpReader.ReaderResult(chunks) == Success(request) <==>
      RequestOf(HttpReader.Concat(chunks), request) &&
      forall k :: 0 <= k <= |chunks| ==> !Overfull(HttpReader.Concat(chunks[..k]))
  {
    hide ParseOnce, RequestOf, HttpReader.LimitTrips, Overfull, FindHeaderTerminator, HttpReader.Concat;
    RequestExactly(HttpReader.Concat(chunks), request);
    SizeLimit(chunks);
    if RequestOf(HttpReader.Concat(chunks), request) && HttpReader.ReaderResult(chunks) != Failure(HeadersTooLarge) {
      assert HttpReader.ReaderResult(chunks) == ParseOnce(HttpReader.Concat(chunks));
    }
  }
}
