/**
 The outbound side of the web-mode proxy: the printer that rewrites a parsed request for
 the backend, and the round trip through the parser.
 */
module HttpProxy {
  import opened Wrappers
  import opened Text
  import opened HttpSyntax

  const HOST := "127.0.0.1"

  predicate IsHopByHop(name: string) {
    || EqualsIgnoreCase(name, "connection")
    || EqualsIgnoreCase(name, "proxy-connection")
    || EqualsIgnoreCase(name, "keep-alive")
    || EqualsIgnoreCase(name, "proxy-authenticate")
    || EqualsIgnoreCase(name, "proxy-authorization")
    || EqualsIgnoreCase(name, "te")
    || EqualsIgnoreCase(name, "trailer")
    || EqualsIgnoreCase(name, "transfer-encoding")
    || EqualsIgnoreCase(name, "upgrade")
  }

  predicate IsForwarded(h: Header) {
    !EqualsIgnoreCase(h.name, "host") && !IsHopByHop(h.name)
  }

  /** The headers the backend sees as the client wrote them. */
  function EndToEnd(headers: seq<Header>): (r: seq<Header>)
    ensures forall i :: 0 <= i < |r| ==> r[i] in headers && IsForwarded(r[i])
  {
    if headers == [] then []
    else if IsForwarded(headers[0]) then [headers[0]] + EndToEnd(headers[1..])
    else EndToEnd(headers[1..])
  }

  function HostHeader(port: nat): Header {
    Header("Host", HOST + ":" + PrintNat(port))
  }

  const ConnectionHeader := Header("Connection", "close")

  function LengthHeader(n: nat): Header {
    Header("Content-Length", PrintNat(n))
  }

  predicate DeclaresLength(headers: seq<Header>) {
    exists i :: 0 <= i < |headers| && IsContentLength(headers[i])
  }

  function PrintHeader(h: Header): string {
    h.name + ": " + h.value
  }

  /** Each line with its line end. */
  function PrintLines(lines: seq<string>): string {
    if lines == [] then "" else lines[0] + CRLF + PrintLines(lines[1..])
  }

  function HeaderLines(headers: seq<Header>): (lines: seq<string>)
    ensures |lines| == |headers|
    ensures forall i :: 0 <= i < |headers| ==> lines[i] == PrintHeader(headers[i])
  {
    seq(|headers|, i requires 0 <= i < |headers| => PrintHeader(headers[i]))
  }

  function OutboundHeaders(request: Request, port: nat): seq<Header> {
    EndToEnd(request.headers) + [HostHeader(port), ConnectionHeader] +
    if request.body != "" && !DeclaresLength(EndToEnd(request.headers)) then [LengthHeader(|request.body|)] else []
  }

  function RequestLine(request: Request): string {
    request.verb + " " + request.rawPath + " " + request.version
  }

  /** The bytes sent to the backend. */
  function Outbound(request: Request, port: nat): string {
    PrintLines([RequestLine(request)] + HeaderLines(OutboundHeaders(request, port))) + CRLF + request.body
  }

  lemma {:induction false} PrintLinesAppend(a: seq<string>, b: seq<string>)
    ensures PrintLines(a + b) == PrintLines(a) + PrintLines(b)
  {
    if a == [] {
      assert a + b == b;
    } else {
      assert (a + b)[1..] == a[1..] + b;
      PrintLinesAppend(a[1..], b);
    }
  }

  lemma PrintLinesSnoc(a: seq<string>, line: string)
    ensures PrintLines(a + [line]) == PrintLines(a) + line + CRLF
  {
    PrintLinesAppend(a, [line]);
    assert [line][1..] == [];
    assert PrintLines([line]) == line + CRLF;
  }

  lemma EndToEndSnoc(headers: seq<Header>, i: nat)
    requires i < |headers|
    ensures EndToEnd(headers[..i + 1]) ==
      EndToEnd(headers[..i]) + if IsForwarded(headers[i]) then [headers[i]] else []
    decreases i
  {
    hide IsForwarded;
    if i == 0 {
      assert headers[..1] == [headers[0]];
    } else {
      EndToEndSnoc(headers[1..], i - 1);
      assert headers[..i + 1][1..] == headers[1..][..i];
      assert headers[..i][1..] == headers[1..][..i - 1];
    }
  }

  /** Every forwarded header is kept, at the place the forwarded headers before it give it. */
  lemma EndToEndKeeps(headers: seq<Header>, i: nat)
    requires i < |headers| && IsForwarded(headers[i])
    ensures var place := |EndToEnd(headers[..i])|;
      place < |EndToEnd(headers)| && EndToEnd(headers)[place] == headers[i]
    decreases |headers|
  {
    hide IsForwarded;
    if i == 0 {
      assert headers[..0] == [];
    } else {
      EndToEndKeeps(headers[1..], i - 1);
      assert headers[..i][1..] == headers[1..][..i - 1];
    }
  }

  lemma EndToEndFrom(headers: seq<Header>, j: nat) returns (i: nat)
    requires j < |EndToEnd(headers)|
    ensures i < |headers| && IsForwarded(headers[i])
    ensures |EndToEnd(headers[..i])| == j && EndToEnd(headers)[j] == headers[i]
  {
    hide IsForwarded;
    if IsForwarded(headers[0]) && j == 0 {
      i := 0;
      assert headers[..0] == [];
    } else {
      var before := if IsForwarded(headers[0]) then 1 else 0;
      i := EndToEndFrom(headers[1..], j - before);
      i := i + 1;
      assert headers[..i][1..] == headers[1..][..i - 1];
    }
  }

  /** What is forwarded are exactly the end-to-end headers, every one of them, in their order. */
  lemma EndToEndExactly(headers: seq<Header>, j: nat, h: Header)
    ensures j < |EndToEnd(headers)| && EndToEnd(headers)[j] == h <==>
      exists i :: 0 <= i < |headers| && headers[i] == h && IsForwarded(h) && |EndToEnd(headers[..i])| == j
  {
    hide IsForwarded, EndToEnd;
    if j < |EndToEnd(headers)| && EndToEnd(headers)[j] == h {
      var i := EndToEndFrom(headers, j);
    }
    forall i | 0 <= i < |headers| && headers[i] == h && IsForwarded(h) && |EndToEnd(headers[..i])| == j
      ensures j < |EndToEnd(headers)| && EndToEnd(headers)[j] == h
    {
      EndToEndKeeps(headers, i);
    }
  }

  // ---------------------------------------------------------------- fields nominated by Connection

  function SplitCommas(s: string): (pieces: seq<string>)
    ensures pieces != []
  {
    if s == "" then [""]
    else
      var rest := SplitCommas(s[1..]);
      if s[0] == ',' then [""] + rest else [[s[0]] + rest[0]] + rest[1..]
  }

  predicate HasOption(value: string, name: string) {
    var pieces := SplitCommas(value);
    exists i :: 0 <= i < |pieces| && EqualsIgnoreCase(Trim(pieces[i], IsWhite), name)
  }

  /** A Connection field lists this field name: an intermediary must not forward it. */
  predicate Nominated(headers: seq<Header>, name: string) {
    exists i :: 0 <= i < |headers| && EqualsIgnoreCase(headers[i].name, "connection") && HasOption(headers[i].value, name)
  }

  predicate ForwardsNominated(headers: seq<Header>) {
    exists i :: 0 <= i < |EndToEnd(headers)| && Nominated(headers, EndToEnd(headers)[i].name)
  }

  /** The proxy removes a fixed list of names: a nominated field is forwarded exactly if one is present that the list lacks. */
  lemma NominatedForwarded(headers: seq<Header>)
    ensures ForwardsNominated(headers) <==>
      exists i :: 0 <= i < |headers| && Nominated(headers, headers[i].name) && IsForwarded(headers[i])
  {
    hide Nominated, IsForwarded;
    if ForwardsNominated(headers) {
      var i :| 0 <= i < |EndToEnd(headers)| && Nominated(headers, EndToEnd(headers)[i].name);
      assert EndToEnd(headers)[i] in headers;
    }
    forall i | 0 <= i < |headers| && Nominated(headers, headers[i].name) && IsForwarded(headers[i])
      ensures ForwardsNominated(headers)
    {
      EndToEndKeeps(headers, i);
    }
  }

  lemma {:induction false} OneOption(name: string)
    requires ',' !in name
    ensures SplitCommas(name) == [name]
  {
    if name != "" {
      OneOption(name[1..]);
      assert name[0] in name && [name[0]] + name[1..] == name;
    }
  }

  lemma SecondOnly(a: Header, b: Header)
    requires !IsForwarded(a) && IsForwarded(b)
    ensures EndToEnd([a, b]) == [b]
  {
    hide IsForwarded;
    assert [a, b][1..] == [b] && [b][1..] == [];
    assert EndToEnd([b]) == [b] + EndToEnd([]) == [b];
  }

  lemma ConnectionOption(name: string, value: string)
    requires Trimmed(name, IsWhite) && ',' !in name
    ensures EqualsIgnoreCase("Connection", "connection") && !IsForwarded(Header("Connection", value))
    ensures HasOption(name, name)
  {
    hide Trim, Trimmed, SplitCommas;
    OneOption(name);
    TrimOfTrimmed(name, IsWhite);
    assert Lower("Connection") == Lower("connection");
    assert SplitCommas(name)[0] == name;
  }

  /** Such a request: any field that is named by the Connection field beside it, and not on the list. */
  lemma NominatedFieldForwarded(name: string, value: string)
    requires Trimmed(name, IsWhite) && ',' !in name && IsForwarded(Header(name, value))
    ensures var headers := [Header("Connection", name), Header(name, value)];
      Nominated(headers, name) && EndToEnd(headers) == [Header(name, value)]
  {
    hide HasOption, Trimmed, IsForwarded, EqualsIgnoreCase, EndToEnd;
    ConnectionOption(name, name);
    SecondOnly(Header("Connection", name), Header(name, value));
    assert [Header("Connection", name), Header(name, value)][0] == Header("Connection", name);
  }

  // ---------------------------------------------------------------- printing the head

  /** The request line and these headers, printed. */
  function PrintHead(request: Request, headers: seq<Header>): string {
    PrintLines([RequestLine(request)] + HeaderLines(headers))
  }

  lemma PrintHeadSnoc(request: Request, headers: seq<Header>, h: Header)
    ensures PrintHead(request, headers + [h]) == PrintHead(request, headers) + PrintHeader(h) + CRLF
  {
    hide RequestLine, PrintHeader;
    assert [RequestLine(request)] + HeaderLines(headers + [h]) ==
      [RequestLine(request)] + HeaderLines(headers) + [PrintHeader(h)];
    PrintLinesSnoc([RequestLine(request)] + HeaderLines(headers), PrintHeader(h));
  }

  lemma DeclaresLengthSnoc(headers: seq<Header>, h: Header)
    ensures DeclaresLength(headers + [h]) == (DeclaresLength(headers) || IsContentLength(h))
  {
    hide IsContentLength;
    assert (headers + [h])[|headers|] == h;
    if DeclaresLength(headers) {
      var i :| 0 <= i < |headers| && IsContentLength(headers[i]);
      assert (headers + [h])[i] == headers[i];
    }
  }

  /** The loop that fills the outbound buffer. */
  method SerializeOutbound(request: Request, port: nat) returns (outbound: string)
    ensures outbound == Outbound(request, port)
  {
    hide IsForwarded, IsContentLength, HostHeader, LengthHeader, PrintHead;
    outbound := RequestLine(request) + CRLF;
    var hasContentLength := false;
    ghost var sent: seq<Header> := [];
    PrintHeadOfNone(request);
    assert request.headers[..0] == [];
    for i := 0 to |request.headers|
      invariant sent == EndToEnd(request.headers[..i])
      invariant outbound == PrintHead(request, sent)
      invariant hasContentLength == DeclaresLength(sent)
    {
      var h := request.headers[i];
      EndToEndSnoc(request.headers, i);
      if IsForwarded(h) {
        if IsContentLength(h) {
          hasContentLength := true;
        }
        PrintHeadSnoc(request, sent, h);
        DeclaresLengthSnoc(sent, h);
        outbound := outbound + PrintHeader(h) + CRLF;
        sent := sent + [h];
      }
    }
    assert request.headers[..|request.headers|] == request.headers;
    PrintHeadSnoc(request, sent, HostHeader(port));
    outbound := outbound + PrintHeader(HostHeader(port)) + CRLF;
    PrintHeadSnoc(request, sent + [HostHeader(port)], ConnectionHeader);
    outbound := outbound + PrintHeader(ConnectionHeader) + CRLF;
    ghost var all := sent + [HostHeader(port)] + [ConnectionHeader];
    assert all == sent + [HostHeader(port), ConnectionHeader];
    if request.body != "" && !hasContentLength {
      PrintHeadSnoc(request, all, LengthHeader(|request.body|));
      outbound := outbound + PrintHeader(LengthHeader(|request.body|)) + CRLF;
      all := all + [LengthHeader(|request.body|)];
    }
    assert OutboundHeaders(request, port) == all;
    outbound := outbound + CRLF + request.body;
    OutboundIsPrintHead(request, port);
  }

  lemma PrintHeadOfNone(request: Request)
    ensures PrintHead(request, []) == RequestLine(request) + CRLF
  {
    hide RequestLine;
    assert [RequestLine(request)] + HeaderLines([]) == [] + [RequestLine(request)];
    PrintLinesSnoc([], RequestLine(request));
  }

  lemma OutboundIsPrintHead(request: Request, port: nat)
    ensures Outbound(request, port) == PrintHead(request, OutboundHeaders(request, port)) + CRLF + request.body
  {
  }

  // ---------------------------------------------------------------- what the parser accepts

  ghost predicate WellFormedHeader(h: Header) {
    && h.name != "" && Trimmed(h.name, IsWhite) && ':' !in h.name && CrlfFree(h.name)
    && Trimmed(h.value, IsWhite) && CrlfFree(h.value)
    && !UnsupportedCoding(h)
  }

  ghost predicate WellFormedHeaders(headers: seq<Header>) {
    forall i :: 0 <= i < |headers| ==> WellFormedHeader(headers[i])
  }

  ghost predicate WellFormed(request: Request) {
    && IsWord(request.verb) && IsWord(request.rawPath) && IsWord(request.version)
    && WellFormedHeaders(request.headers)
    && |request.body| <= MAX_BODY_BYTES
    && ContentLength(request.headers) == Success(|request.body|)
  }

  lemma CrlfFreeSlice(s: string, a: nat, b: nat)
    requires CrlfFree(s) && a <= b <= |s|
    ensures CrlfFree(s[a..b])
  {
    forall i: nat ensures !CrlfAt(s[a..b], i) {
      assert CrlfAt(s[a..b], i) == (i + 1 < b - a && CrlfAt(s, a + i));
    }
  }

  lemma TrimIsSlice(s: string)
    requires CrlfFree(s)
    ensures CrlfFree(Trim(s, IsWhite))
    ensures forall c :: c in Trim(s, IsWhite) ==> c in s
  {
    hide Trim, TrimLeft, Trimmed, CrlfFree;
    var a := |s| - |TrimLeft(s, IsWhite)|;
    var n := |Trim(s, IsWhite)|;
    assert Trim(s, IsWhite) == s[a..][..n] == s[a..a + n];
    CrlfFreeSlice(s, a, a + n);
  }

  /** A trimmed slice of a line without line ends has none either, and no character the slice lacks. */
  lemma TrimmedSlice(line: string, a: nat, b: nat)
    requires CrlfFree(line) && a <= b <= |line|
    ensures var t := Trim(line[a..b], IsWhite);
      Trimmed(t, IsWhite) && CrlfFree(t) && forall c :: c in t ==> c in line[a..b]
  {
    hide Trim, CrlfFree, Trimmed;
    CrlfFreeSlice(line, a, b);
    TrimIsSlice(line[a..b]);
  }

  /** Where the parts of a parsed header line come from. */
  lemma HeaderSlices(line: string) returns (i: nat)
    requires ParseHeaderLine(line).Success?
    ensures i < |line| && ':' !in line[..i]
    ensures var h := ParseHeaderLine(line).value;
      && h.name == Trim(line[..i], IsWhite) && h.name != ""
      && h.value == Trim(line[i + 1..], IsWhite)
      && !UnsupportedCoding(h)
  {
    hide UnsupportedCoding, Trim, Trimmed, TrimLeft, FindColon;
    i := FindColon(line).value;
  }

  lemma ParsedHeaderIsWellFormed(line: string)
    requires CrlfFree(line) && ParseHeaderLine(line).Success?
    ensures WellFormedHeader(ParseHeaderLine(line).value)
  {
    hide UnsupportedCoding, Trim, CrlfFree, Trimmed, ParseHeaderLine;
    var i := HeaderSlices(line);
    assert line[0..i] == line[..i] && line[i + 1..|line|] == line[i + 1..];
    TrimmedSlice(line, 0, i);
    TrimmedSlice(line, i + 1, |line|);
  }

  lemma {:induction false} ParsedHeadersAreWellFormed(lines: seq<string>)
    requires forall i :: 0 <= i < |lines| ==> CrlfFree(lines[i])
    requires ParseHeaderLines(lines).Success?
    ensures WellFormedHeaders(ParseHeaderLines(lines).value)
  {
    hide ParseHeaderLine, WellFormedHeader;
    if lines != [] {
      ParsedHeadersAreWellFormed(lines[1..]);
      if lines[0] != "" {
        ParsedHeaderIsWellFormed(lines[0]);
      }
    }
  }

  lemma ParsedLineIsWords(line: string)
    requires ParseRequestLine(line).Success?
    ensures var (verb, rawPath, version) := ParseRequestLine(line).value;
      IsWord(verb) && IsWord(rawPath) && IsWord(version)
  {
    hide SplitWords;
    PiecesAreWords(line);
  }

  lemma ParsedHeadIsWellFormed(text: string)
    requires ParseHead(text).Success?
    ensures var head := ParseHead(text).value;
      && IsWord(head.verb) && IsWord(head.rawPath) && IsWord(head.version)
      && WellFormedHeaders(head.headers)
  {
    hide SplitLines, ParseRequestLine, ParseHeaderLines, ContentLength, WellFormedHeaders, IsWord;
    var lines := SplitLines(text);
    ParsedLineIsWords(lines[0]);
    ParsedHeadersAreWellFormed(lines[1..]);
  }

  /** Everything the reader hands on is well formed. */
  lemma ParsedIsWellFormed(s: string)
    requires ParseOnce(s).Success?
    ensures WellFormed(ParseOnce(s).value)
  {
    hide ParseHead, WellFormedHeaders, ContentLength, IsWord;
    var e := FindHeaderTerminator(s).value;
    ParsedHeadIsWellFormed(s[..e]);
    ParsedHeadLength(s[..e]);
  }
}
