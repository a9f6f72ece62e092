/**
 The printed request parses back: same method, path, version and body, and the
 end-to-end headers in order followed by Host and Connection.
 */
module HttpRoundTrip {
  import opened Wrappers
  import opened Text
  import opened HttpSyntax
  import opened HttpProxy
  import HttpReader

  // ---------------------------------------------------------------- line structure

  /** A line the printer may emit inside the header section. */
  ghost predicate PrintableLine(line: string) {
    line != "" && CrlfFree(line)
  }

  ghost predicate PrintableLines(lines: seq<string>) {
    forall i :: 0 <= i < |lines| ==> PrintableLine(lines[i])
  }

  /** The line ends of a printed line followed by more text. */
  lemma LineEnds(line: string, rest: string, p: nat)
    requires CrlfFree(line)
    ensures var n := |line|;
      CrlfAt(line + CRLF + rest, p) == (p == n || (p >= n + 2 && CrlfAt(rest, p - n - 2)))
  {
    var s, n := line + CRLF + rest, |line|;
    assert forall i :: 0 <= i < n ==> s[i] == line[i];
    assert forall i :: n + 2 <= i < |s| ==> s[i] == rest[i - n - 2];
    assert !CrlfAt(line, p);
  }

  lemma FindCrlfAfterLine(line: string, rest: string)
    requires CrlfFree(line)
    ensures FindCrlf(line + CRLF + rest, 0) == Some(|line|)
  {
    var s := line + CRLF + rest;
    forall p: nat ensures CrlfAt(s, p) == (p == |line| || (p >= |line| + 2 && CrlfAt(rest, p - |line| - 2))) {
      LineEnds(line, rest, p);
    }
    assert CrlfAt(s, |line|);
  }

  lemma SplitAfterLine(line: string, rest: string)
    requires CrlfFree(line)
    ensures SplitLines(line + CRLF + rest) == [line] + SplitLines(rest)
  {
    var s := line + CRLF + rest;
    FindCrlfAfterLine(line, rest);
    assert s[..|line|] == line && s[|line| + 2..] == rest;
  }

  lemma {:induction false} SplitOfJoin(lines: seq<string>)
    requires lines != [] && forall i :: 0 <= i < |lines| ==> CrlfFree(lines[i])
    ensures SplitLines(JoinLines(lines)) == lines
  {
    if |lines| > 1 {
      SplitOfJoin(lines[1..]);
      SplitAfterLine(lines[0], JoinLines(lines[1..]));
    }
  }

  /** The pieces of a text are the only ones without line ends that give it back when joined by line ends. */
  lemma SplitExactly(s: string, lines: seq<string>)
    requires lines != []
    ensures SplitLines(s) == lines <==> JoinLines(lines) == s && forall i :: 0 <= i < |lines| ==> CrlfFree(lines[i])
  {
    hide SplitLines, JoinLines, CrlfFree;
    JoinOfSplit(s);
    if JoinLines(lines) == s && forall i :: 0 <= i < |lines| ==> CrlfFree(lines[i]) {
      SplitOfJoin(lines);
    }
  }

  /** Splitting undoes printing; the blank line leaves two empty pieces. */
  lemma {:induction false} SplitOfPrint(lines: seq<string>)
    requires PrintableLines(lines)
    ensures SplitLines(PrintLines(lines) + CRLF) == lines + ["", ""]
  {
    assert SplitLines("") == [""];
    hide SplitLines;
    if lines == [] {
      assert [""] + [""] == ["", ""];
      assert PrintLines(lines) + CRLF == "" + CRLF + "";
      SplitAfterLine("", "");
    } else {
      var rest := PrintLines(lines[1..]) + CRLF;
      assert PrintLines(lines) + CRLF == lines[0] + CRLF + rest;
      SplitAfterLine(lines[0], rest);
      SplitOfPrint(lines[1..]);
    }
  }

  lemma TerminatorIsTwoLineEnds(s: string, e: nat)
    ensures TerminatorEndsAt(s, e) == (e >= 4 && CrlfAt(s, e - 4) && CrlfAt(s, e - 2))
  {
  }

  /** No blank line ends inside, or right after, a printed line. */
  lemma NoTerminatorInLine(line: string, rest: string, e: nat)
    requires PrintableLine(line) && !CrlfAt(rest, 0) && e < |line| + 6
    ensures !TerminatorEndsAt(line + CRLF + rest, e)
  {
    var s := line + CRLF + rest;
    TerminatorIsTwoLineEnds(s, e);
    if e >= 4 {
      LineEnds(line, rest, e - 4);
      LineEnds(line, rest, e - 2);
    }
  }

  lemma TerminatorAfterLine(line: string, rest: string)
    requires PrintableLine(line) && !CrlfAt(rest, 0)
    ensures FindHeaderTerminator(line + CRLF + rest) ==
      match FindHeaderTerminator(rest) { case None => None case Some(e) => Some(|line| + 2 + e) }
  {
    var s, n := line + CRLF + rest, |line| + 2;
    assert forall k :: n <= k < |s| ==> s[k] == rest[k - n];
    forall e: nat ensures TerminatorEndsAt(s, e) == (e >= n && TerminatorEndsAt(rest, e - n)) {
      if e < n + 4 {
        NoTerminatorInLine(line, rest, e);
      }
    }
    var found := FindHeaderTerminator(rest);
    if found.Some? {
      assert TerminatorEndsAt(s, n + found.value);
    }
  }

  lemma TerminatorOfLast(line: string, body: string)
    requires PrintableLine(line)
    ensures FindHeaderTerminator(line + CRLF + (CRLF + body)) == Some(|line| + 4)
  {
    var rest := CRLF + body;
    var s := line + CRLF + rest;
    assert TerminatorEndsAt(s, |line| + 4);
    forall e: nat | e < |line| + 4 ensures !TerminatorEndsAt(s, e) {
      TerminatorIsTwoLineEnds(s, e);
      if e >= 4 {
        LineEnds(line, rest, e - 4);
      }
    }
  }

  lemma PrintFirst(lines: seq<string>, body: string)
    requires lines != []
    ensures PrintLines(lines) == lines[0] + CRLF + PrintLines(lines[1..])
    ensures PrintLines(lines) + CRLF + body == lines[0] + CRLF + (PrintLines(lines[1..]) + CRLF + body)
    ensures |PrintLines(lines)| == |lines[0]| + 2 + |PrintLines(lines[1..])|
  {
  }

  /** The first blank line is the one printed after the last header. */
  lemma {:induction false} TerminatorOfPrint(lines: seq<string>, body: string)
    requires PrintableLines(lines) && lines != []
    ensures FindHeaderTerminator(PrintLines(lines) + CRLF + body) == Some(|PrintLines(lines)| + 2)
  {
    assert PrintLines([]) == "";
    hide PrintLines, FindHeaderTerminator, PrintableLine;
    PrintFirst(lines, body);
    if |lines| == 1 {
      assert "" + CRLF + body == CRLF + body;
      TerminatorOfLast(lines[0], body);
    } else {
      PrintFirst(lines[1..], body);
      LineStart(lines[1], PrintLines(lines[1..][1..]) + CRLF + body);
      TerminatorOfPrint(lines[1..], body);
      TerminatorAfterLine(lines[0], PrintLines(lines[1..]) + CRLF + body);
    }
  }

  lemma LineStart(line: string, rest: string)
    requires PrintableLine(line)
    ensures !CrlfAt(line + CRLF + rest, 0)
  {
    LineEnds(line, rest, 0);
  }

  // ---------------------------------------------------------------- request line

  lemma WordThenSpace(word: string, rest: string)
    requires IsWord(word) && (rest == "" || IsWhite(rest[0]))
    ensures WordLength(word + rest) == |word|
  {
    var n := WordLength(word + rest);
    assert forall i :: 0 <= i < |word| ==> (word + rest)[i] == word[i];
    assert rest != "" ==> (word + rest)[|word|] == rest[0];
  }

  lemma FirstWord(word: string, rest: string)
    requires IsWord(word) && (rest == "" || IsWhite(rest[0]))
    ensures SplitWords(word + rest) == [word] + SplitWords(rest)
  {
    WordThenSpace(word, rest);
    assert (word + rest)[..|word|] == word && (word + rest)[|word|..] == rest;
  }

  lemma SkipSpace(rest: string)
    ensures SplitWords(" " + rest) == SplitWords(rest)
  {
    assert (" " + rest)[1..] == rest;
    assert TrimLeft(" " + rest, IsWhite) == TrimLeft(rest, IsWhite);
  }

  lemma WordThenMore(word: string, rest: string)
    requires IsWord(word)
    ensures SplitWords(word + (" " + rest)) == [word] + SplitWords(rest)
  {
    FirstWord(word, " " + rest);
    SkipSpace(rest);
  }

  lemma LastWord(word: string)
    requires IsWord(word)
    ensures SplitWords(word) == [word]
  {
    FirstWord(word, "");
    assert word + "" == word;
    assert SplitWords("") == [];
  }

  lemma Reassociate(a: string, b: string, c: string)
    ensures a + " " + b + " " + c == a + (" " + (b + (" " + c)))
  {
  }

  lemma ThreeWords(a: string, b: string, c: string)
    requires IsWord(a) && IsWord(b) && IsWord(c)
    ensures SplitWords(a + " " + b + " " + c) == [a, b, c]
  {
    hide SplitWords, IsWord;
    Reassociate(a, b, c);
    WordThenMore(a, b + (" " + c));
    WordThenMore(b, c);
    LastWord(c);
  }

  lemma WordsOnOneLine(a: string, b: string, c: string)
    requires IsWord(a) && IsWord(b) && IsWord(c)
    ensures PrintableLine(a + " " + b + " " + c)
  {
    var line := a + " " + b + " " + c;
    assert '\r' !in a && '\r' !in b && '\r' !in c;
    assert '\r' !in line;
  }

  lemma RequestLineParses(request: Request)
    requires IsWord(request.verb) && IsWord(request.rawPath) && IsWord(request.version)
    ensures ParseRequestLine(RequestLine(request)) == Success((request.verb, request.rawPath, request.version))
    ensures PrintableLine(RequestLine(request))
  {
    hide SplitWords, IsWord, PrintableLine;
    ThreeWords(request.verb, request.rawPath, request.version);
    WordsOnOneLine(request.verb, request.rawPath, request.version);
  }

  // ---------------------------------------------------------------- headers

  lemma FindColonAfter(name: string, rest: string)
    requires ':' !in name
    ensures FindColon(name + ":" + rest) == Some(|name|)
  {
    var s := name + ":" + rest;
    assert s[|name|] == ':';
    assert s[..|name|] == name;
    var r := FindColon(s);
    assert r.Some?;
    assert forall i :: 0 <= i < |name| ==> s[i] == name[i];
    assert forall n :: |name| < n <= |s| ==> s[..n][|name|] == ':';
  }

  lemma HeaderParses(h: Header)
    requires WellFormedHeader(h)
    ensures ParseHeaderLine(PrintHeader(h)) == Success(h)
  {
    hide UnsupportedCoding, CrlfFree, Trim;
    var line := PrintHeader(h);
    assert line == h.name + ":" + (" " + h.value);
    FindColonAfter(h.name, " " + h.value);
    assert line[..|h.name|] == h.name && line[|h.name| + 1..] == " " + h.value;
    TrimOfTrimmed(h.name, IsWhite);
    TrimOfPadded(h.value, IsWhite);
  }

  lemma HeaderPrintable(h: Header)
    requires WellFormedHeader(h)
    ensures PrintableLine(PrintHeader(h))
  {
    var line := PrintHeader(h);
    var n := |h.name|;
    assert line[n] == ':' && line[n + 1] == ' ';
    forall i: nat ensures !CrlfAt(line, i) {
      if i + 1 < n {
        assert CrlfAt(line, i) ==> CrlfAt(h.name, i);
      } else if n + 2 <= i {
        assert CrlfAt(line, i) ==> CrlfAt(h.value, i - n - 2);
      }
    }
  }

  /** The two empty pieces after the last header are skipped. */
  lemma {:induction false} HeadersParse(headers: seq<Header>)
    requires WellFormedHeaders(headers)
    ensures ParseHeaderLines(HeaderLines(headers) + ["", ""]) == Success(headers)
  {
    hide ParseHeaderLine, WellFormedHeader, PrintHeader;
    var lines := HeaderLines(headers) + ["", ""];
    if headers == [] {
      assert lines == ["", ""] && lines[1..] == [""] && [""][1..] == [];
    } else {
      HeadersParse(headers[1..]);
      assert lines[1..] == HeaderLines(headers[1..]) + ["", ""];
      HeaderParses(headers[0]);
      HeaderPrintable(headers[0]);
      assert [headers[0]] + headers[1..] == headers;
    }
  }

  lemma HostIsWellFormed(port: nat)
    ensures WellFormedHeader(HostHeader(port))
  {
    var digits := PrintNat(port);
    var value := HostHeader(port).value;
    assert '\r' !in HOST + ":" && '\r' !in digits;
    assert '\r' !in value;
    assert value[|value| - 1] == digits[|digits| - 1];
    assert |Lower("Host")| == 4;
  }

  lemma ConnectionIsWellFormed()
    ensures WellFormedHeader(ConnectionHeader)
  {
    assert |Lower("Connection")| == 10;
  }

  lemma AddedHeadersAreWellFormed(port: nat)
    ensures WellFormedHeader(HostHeader(port)) && WellFormedHeader(ConnectionHeader)
    ensures !IsContentLength(HostHeader(port)) && !IsContentLength(ConnectionHeader)
    ensures !IsForwarded(HostHeader(port)) && !IsForwarded(ConnectionHeader)
  {
    hide WellFormedHeader;
    HostIsWellFormed(port);
    ConnectionIsWellFormed();
    assert Lower("Host") == Lower("host");
    assert Lower("Connection") == Lower("connection");
  }

  // ---------------------------------------------------------------- Content-Length

  lemma {:induction false} FilterKeepsLength(headers: seq<Header>, seen: Option<nat>)
    ensures ContentLengthFrom(EndToEnd(headers), seen) == ContentLengthFrom(headers, seen)
  {
    hide IsForwarded, IsContentLength, ParseUsize;
    if headers != [] {
      if IsContentLength(headers[0]) {
        LengthIsForwarded(headers[0]);
      }
      if !IsContentLength(headers[0]) {
        FilterKeepsLength(headers[1..], seen);
      } else {
        var n := ParseUsize(headers[0].value);
        if n.Success? {
          FilterKeepsLength(headers[1..], Some(n.value));
        }
        assert ([headers[0]] + EndToEnd(headers[1..]))[1..] == EndToEnd(headers[1..]);
      }
      if IsForwarded(headers[0]) {
        assert ([headers[0]] + EndToEnd(headers[1..]))[1..] == EndToEnd(headers[1..]);
      }
    }
  }

  lemma LengthIsForwarded(h: Header)
    requires IsContentLength(h)
    ensures IsForwarded(h)
  {
    assert |h.name| == |Lower(h.name)| == 14;
    assert |Lower("proxy-connection")| == 16;
    assert |Lower("proxy-authenticate")| == 18;
  }

  lemma {:induction false} LengthOfAppended(headers: seq<Header>, more: seq<Header>, seen: Option<nat>)
    requires forall i :: 0 <= i < |more| ==> !IsContentLength(more[i])
    ensures ContentLengthFrom(headers + more, seen) == ContentLengthFrom(headers, seen)
    decreases |headers| + |more|
  {
    hide IsContentLength, ParseUsize;
    if headers == [] {
      assert headers + more == more;
      if more != [] {
        LengthOfAppended([], more[1..], seen);
        assert [] + more[1..] == more[1..];
      }
    } else {
      assert (headers + more)[1..] == headers[1..] + more;
      var n := ParseUsize(headers[0].value);
      LengthOfAppended(headers[1..], more, seen);
      if n.Success? {
        LengthOfAppended(headers[1..], more, Some(n.value));
      }
    }
  }

  lemma {:induction false} NoLengthDeclared(headers: seq<Header>, seen: Option<nat>)
    requires !DeclaresLength(headers)
    ensures ContentLengthFrom(headers, seen) == Success(seen)
  {
    hide IsContentLength;
    if headers != [] {
      assert !IsContentLength(headers[0]);
      assert forall i :: 0 <= i < |headers[1..]| ==> headers[1..][i] == headers[i + 1];
      NoLengthDeclared(headers[1..], seen);
    }
  }

  // ---------------------------------------------------------------- the theorems

  /** What the backend receives: the end-to-end headers, then Host and Connection. */
  function Forwarded(request: Request, port: nat): Request {
    request.(headers := EndToEnd(request.headers) + [HostHeader(port), ConnectionHeader])
  }

  /** A body always comes with its Content-Length, so the branch that adds one never runs. */
  lemma LengthIsNeverAdded(request: Request, port: nat)
    requires WellFormed(request)
    ensures request.body != "" ==> DeclaresLength(EndToEnd(request.headers))
    ensures OutboundHeaders(request, port) == Forwarded(request, port).headers
  {
    hide WellFormedHeaders, IsContentLength, IsForwarded;
    FilterKeepsLength(request.headers, None);
    if !DeclaresLength(EndToEnd(request.headers)) {
      NoLengthDeclared(EndToEnd(request.headers), None);
    }
  }

  lemma {:induction false} EndToEndIsWellFormed(headers: seq<Header>)
    requires WellFormedHeaders(headers)
    ensures WellFormedHeaders(EndToEnd(headers))
  {
    hide WellFormedHeader, IsForwarded;
    if headers != [] {
      EndToEndIsWellFormed(headers[1..]);
    }
  }

  lemma ForwardedIsWellFormed(request: Request, port: nat)
    requires WellFormed(request)
    ensures WellFormed(Forwarded(request, port))
  {
    hide WellFormedHeader, IsContentLength, IsForwarded, HostHeader, IsWord;
    EndToEndIsWellFormed(request.headers);
    AddedHeadersAreWellFormed(port);
    FilterKeepsLength(request.headers, None);
    LengthOfAppended(EndToEnd(request.headers), [HostHeader(port), ConnectionHeader], None);
  }

  lemma HeadLinesArePrintable(request: Request)
    requires WellFormed(request)
    ensures PrintableLines([RequestLine(request)] + HeaderLines(request.headers))
  {
    hide PrintableLine, WellFormedHeader, IsWord, ContentLength, RequestLine, PrintHeader;
    RequestLineParses(request);
    forall i | 0 <= i < |request.headers| ensures PrintableLine(HeaderLines(request.headers)[i]) {
      HeaderPrintable(request.headers[i]);
    }
  }

  /** A printed head followed by a blank line and the body parses to the request it was printed from. */
  lemma PrintedParses(request: Request)
    requires WellFormed(request)
    ensures ParseOnce(PrintHead(request, request.headers) + CRLF + request.body) == Success(request)
  {
    hide WellFormedHeader, IsWord, ContentLength, RequestLine, PrintableLine, PrintLines, SplitLines,
      ParseHeaderLines, ParseRequestLine, FindHeaderTerminator;
    var lines := [RequestLine(request)] + HeaderLines(request.headers);
    var section := PrintLines(lines) + CRLF;
    var s := section + request.body;
    HeadLinesArePrintable(request);
    TerminatorOfPrint(lines, request.body);
    SplitOfPrint(lines);
    assert s[..|section|] == section;
    assert (lines + ["", ""])[1..] == HeaderLines(request.headers) + ["", ""];
    RequestLineParses(request);
    HeadersParse(request.headers);
    assert s[|section|..|section| + |request.body|] == request.body;
  }

  /**
   The round trip: what the proxy sends for an accepted request is parsed, by the same
   parser, to that request with its hop-by-hop headers gone and Host and Connection added.
   */
  lemma RoundTrip(s: string, port: nat)
    requires ParseOnce(s).Success?
    ensures ParseOnce(Outbound(ParseOnce(s).value, port)) == Success(Forwarded(ParseOnce(s).value, port))
  {
    hide WellFormed, ParseOnce, OutboundHeaders, PrintHead, Forwarded, RequestLine;
    var request := ParseOnce(s).value;
    ParsedIsWellFormed(s);
    ForwardedIsWellFormed(request, port);
    LengthIsNeverAdded(request, port);
    OutboundIsPrintHead(request, port);
    SameHead(request, port);
    PrintedParses(Forwarded(request, port));
  }

  lemma SameHead(request: Request, port: nat)
    ensures PrintHead(request, Forwarded(request, port).headers) ==
      PrintHead(Forwarded(request, port), Forwarded(request, port).headers)
    ensures Forwarded(request, port).body == request.body
  {
  }

  /** The same from socket to socket: however the client's and the proxy's bytes are cut into reads. */
  lemma RoundTripThroughReads(incoming: seq<string>, port: nat, chunks: seq<string>)
    requires HttpReader.ReaderResult(incoming).Success?
    requires var request := HttpReader.ReaderResult(incoming).value;
      && HttpReader.Concat(chunks) == Outbound(request, port)
      && |Outbound(request, port)| - |request.body| <= MAX_HEADER_BYTES
    ensures HttpReader.ReaderResult(chunks) == Success(Forwarded(HttpReader.ReaderResult(incoming).value, port))
  {
    hide WellFormed, ParseOnce, OutboundHeaders, Forwarded, FindHeaderTerminator;
    var s := HttpReader.Concat(incoming);
    var request := HttpReader.ReaderResult(incoming).value;
    assert ParseOnce(s) == Success(request);
    RoundTrip(s, port);
    SameHead(request, port);
    ParsedBody(Outbound(request, port));
    HttpReader.ChunkIndependence(chunks);
  }

  lemma {:induction false} EndToEndTwice(headers: seq<Header>)
    ensures EndToEnd(EndToEnd(headers)) == EndToEnd(headers)
  {
    hide IsForwarded;
    if headers != [] {
      EndToEndTwice(headers[1..]);
      assert ([headers[0]] + EndToEnd(headers[1..]))[1..] == EndToEnd(headers[1..]);
    }
  }

  lemma {:induction false} EndToEndAppend(a: seq<Header>, b: seq<Header>)
    ensures EndToEnd(a + b) == EndToEnd(a) + EndToEnd(b)
  {
    hide IsForwarded;
    if a == [] {
      assert a + b == b;
    } else {
      assert (a + b)[1..] == a[1..] + b;
      EndToEndAppend(a[1..], b);
    }
  }

  /** Proxying a request that already went through the proxy changes nothing more. */
  lemma ProxyTwice(request: Request, port: nat)
    ensures Forwarded(Forwarded(request, port), port) == Forwarded(request, port)
  {
    hide IsForwarded, HostHeader;
    var added := [HostHeader(port), ConnectionHeader];
    EndToEndAppend(EndToEnd(request.headers), added);
    EndToEndTwice(request.headers);
    AddedHeadersAreWellFormed(port);
    assert added[1..] == [ConnectionHeader] && [ConnectionHeader][1..] == [];
    assert EndToEnd([ConnectionHeader]) == [];
    assert EndToEnd(added) == [];
    assert EndToEnd(request.headers) + [] == EndToEnd(request.headers);
  }
}
