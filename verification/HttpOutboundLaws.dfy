/** The bytes the proxy sends, and which headers are among them, in so many words. */
module HttpOutboundLaws {
  import opened Wrappers
  import opened Text
  import opened HttpSyntax
  import opened HttpProxy
  import HttpRoundTrip

  /** Capital letters become small ones, everything else stays. */
  lemma LowerExactly(s: string, i: nat)
    requires i < |s|
    ensures |Lower(s)| == |s|
    ensures 'A' <= s[i] <= 'Z' ==> 'a' <= Lower(s)[i] <= 'z' && Lower(s)[i] as int - 'a' as int == s[i] as int - 'A' as int
    ensures !('A' <= s[i] <= 'Z') ==> Lower(s)[i] == s[i]
  {
  }

  /** Not forwarded: Host, and the fields that concern one connection only. */
  ghost predicate Dropped(name: string) {
    || Lower(name) == "host"
    || Lower(name) == "connection" || Lower(name) == "proxy-connection" || Lower(name) == "keep-alive"
    || Lower(name) == "proxy-authenticate" || Lower(name) == "proxy-authorization"
    || Lower(name) == "te" || Lower(name) == "trailer" || Lower(name) == "transfer-encoding" || Lower(name) == "upgrade"
  }

  lemma LowNames()
    ensures Lower("host") == "host" && Lower("connection") == "connection" && Lower("keep-alive") == "keep-alive"
    ensures Lower("te") == "te" && Lower("trailer") == "trailer" && Lower("upgrade") == "upgrade"
  {
  }

  lemma LongLowNames()
    ensures Lower("proxy-connection") == "proxy-connection" && Lower("transfer-encoding") == "transfer-encoding"
    ensures Lower("proxy-authenticate") == "proxy-authenticate" && Lower("proxy-authorization") == "proxy-authorization"
  {
  }

  lemma ForwardedExactly(h: Header)
    ensures IsForwarded(h) <==> !Dropped(h.name)
  {
    LowNames();
    LongLowNames();
    hide Lower;
  }

  /** Header lines as they are sent. */
  ghost function Sent(headers: seq<Header>): string {
    if headers == [] then "" else headers[0].name + ": " + headers[0].value + "\r\n" + Sent(headers[1..])
  }

  /** The headers that are not dropped, in their order. */
  ghost function Kept(headers: seq<Header>): seq<Header> {
    if headers == [] then []
    else (if Dropped(headers[0].name) then [] else [headers[0]]) + Kept(headers[1..])
  }

  lemma {:induction false} KeptExactly(headers: seq<Header>)
    ensures EndToEnd(headers) == Kept(headers)
  {
    hide IsForwarded, Dropped;
    if headers != [] {
      ForwardedExactly(headers[0]);
      KeptExactly(headers[1..]);
      assert [] + Kept(headers[1..]) == Kept(headers[1..]);
    }
  }

  lemma {:induction false} SentExactly(headers: seq<Header>)
    ensures PrintLines(HeaderLines(headers)) == Sent(headers)
  {
    if headers != [] {
      SentExactly(headers[1..]);
      assert HeaderLines(headers)[1..] == HeaderLines(headers[1..]);
      hide HeaderLines;
    }
  }

  lemma {:induction false} SentAppend(a: seq<Header>, b: seq<Header>)
    ensures Sent(a + b) == Sent(a) + Sent(b)
  {
    if a == [] {
      assert a + b == b;
    } else {
      assert (a + b)[1..] == a[1..] + b;
      SentAppend(a[1..], b);
    }
  }

  ghost predicate HasLength(headers: seq<Header>) {
    exists i :: 0 <= i < |headers| && Lower(headers[i].name) == "content-length"
  }

  lemma HasLengthExactly(headers: seq<Header>)
    ensures DeclaresLength(headers) == HasLength(headers)
  {
    assert Lower("content-length") == "content-length";
    hide Lower;
  }

  /** The headers the proxy adds. */
  ghost function Added(request: Request, port: nat): string {
    ("Host: 127.0.0.1:" + PrintNat(port) + "\r\n") + ("Connection: close\r\n" + AddedLength(request))
  }

  ghost function AddedLength(request: Request): string {
    if request.body != "" && !HasLength(Kept(request.headers)) then "Content-Length: " + PrintNat(|request.body|) + "\r\n" else ""
  }

  lemma SentOne(h: Header)
    ensures Sent([h]) == h.name + ": " + h.value + "\r\n"
  {
    assert [h][1..] == [];
  }

  lemma HostIs(port: nat)
    ensures HostHeader(port) == Header("Host", "127.0.0.1:" + PrintNat(port))
  {
    hide PrintNat;
    assert HOST + ":" == "127.0.0.1:";
  }

  lemma SentHost(port: nat)
    ensures Sent([HostHeader(port)]) == "Host: 127.0.0.1:" + PrintNat(port) + "\r\n"
  {
    HostIs(port);
    SentOne(HostHeader(port));
    hide *;
    assert "Host" + ": " == "Host: ";
    assert "Host: " + "127.0.0.1:" == "Host: 127.0.0.1:";
    assert "Host: " + ("127.0.0.1:" + PrintNat(port)) == ("Host: " + "127.0.0.1:") + PrintNat(port);
  }

  lemma SentConnection()
    ensures Sent([ConnectionHeader]) == "Connection: close\r\n"
  {
    SentOne(ConnectionHeader);
  }

  lemma SentLength(n: nat)
    ensures Sent([LengthHeader(n)]) == "Content-Length: " + PrintNat(n) + "\r\n"
  {
    SentOne(LengthHeader(n));
    hide PrintNat, Sent;
    assert "Content-Length" + ": " == "Content-Length: ";
  }

  /** The added headers, as headers. */
  ghost function AddedHeaders(request: Request, port: nat): seq<Header> {
    [HostHeader(port)] + ([ConnectionHeader] +
    if request.body != "" && !DeclaresLength(EndToEnd(request.headers)) then [LengthHeader(|request.body|)] else [])
  }

  lemma SentLast(request: Request)
    ensures var adds := request.body != "" && !DeclaresLength(EndToEnd(request.headers));
      Sent(if adds then [LengthHeader(|request.body|)] else []) == AddedLength(request)
  {
    KeptExactly(request.headers);
    HasLengthExactly(EndToEnd(request.headers));
    SentLength(|request.body|);
    assert Sent([]) == "";
    hide EndToEnd, DeclaresLength, HasLength, Kept, Sent, PrintNat, LengthHeader;
  }

  lemma SentAdded(request: Request, port: nat)
    ensures Sent(AddedHeaders(request, port)) == Added(request, port)
  {
    hide EndToEnd, DeclaresLength, HasLength, Kept, Sent, PrintNat, HostHeader, LengthHeader, AddedLength;
    var adds := request.body != "" && !DeclaresLength(EndToEnd(request.headers));
    var last := if adds then [LengthHeader(|request.body|)] else [];
    SentAppend([HostHeader(port)], [ConnectionHeader] + last);
    SentAppend([ConnectionHeader], last);
    SentHost(port);
    SentConnection();
    SentLast(request);
  }

  lemma HeadersAre(request: Request, port: nat)
    ensures OutboundHeaders(request, port) == EndToEnd(request.headers) + AddedHeaders(request, port)
  {
    hide EndToEnd, DeclaresLength, HostHeader, LengthHeader;
  }

  /** The bytes sent: request line, kept headers, added headers, a blank line and the body. */
  lemma OutboundExactly(request: Request, port: nat)
    ensures Outbound(request, port) ==
      request.verb + " " + request.rawPath + " " + request.version + "\r\n" +
      Sent(Kept(request.headers)) + Added(request, port) + "\r\n" + request.body
  {
    hide *;
    var headers := OutboundHeaders(request, port);
    KeptExactly(request.headers);
    HeadersAre(request, port);
    SentAdded(request, port);
    SentAppend(EndToEnd(request.headers), AddedHeaders(request, port));
    SentExactly(headers);
    PrintLinesAppend([RequestLine(request)], HeaderLines(headers));
    PrintFirstLine(RequestLine(request));
    OutboundParts(request, port);
    assert PrintLines([RequestLine(request)] + HeaderLines(headers)) ==
      RequestLine(request) + "\r\n" + (Sent(Kept(request.headers)) + Added(request, port));
  }

  lemma PrintFirstLine(line: string)
    ensures PrintLines([line]) == line + "\r\n"
  {
    assert [line][1..] == [];
  }

  lemma OutboundParts(request: Request, port: nat)
    ensures Outbound(request, port) ==
      PrintLines([RequestLine(request)] + HeaderLines(OutboundHeaders(request, port))) + "\r\n" + request.body
    ensures RequestLine(request) == request.verb + " " + request.rawPath + " " + request.version
  {
    hide PrintLines, HeaderLines, OutboundHeaders;
  }

  /** What is sent for an accepted request parses to it, with the dropped headers gone and these two at the end. */
  lemma RoundTripExactly(s: string, port: nat)
    requires ParseOnce(s).Success?
    ensures var request := ParseOnce(s).value;
      ParseOnce(Outbound(request, port)) == Success(Request(
        request.verb, request.rawPath, request.version,
        Kept(request.headers) + [Header("Host", "127.0.0.1:" + PrintNat(port)), Header("Connection", "close")],
        request.body))
  {
    hide ParseOnce, Outbound, EndToEnd, Kept, PrintNat;
    HttpRoundTrip.RoundTrip(s, port);
    KeptExactly(ParseOnce(s).value.headers);
    HostIs(port);
  }
}
