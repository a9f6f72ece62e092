/**
 The pure part of the web-mode HTTP codec: header terminator, line and word splitting,
 header lines, Content-Length, and the one-shot parse of a complete byte string.
 Bytes are characters; only the ASCII white-space characters are distinguished.
 */
module HttpSyntax {
  import opened Wrappers
  import opened Text

  const CRLF := "\r\n"
  const MAX_HEADER_BYTES := 64 * 1024
  const MAX_BODY_BYTES := 8 * 1024 * 1024
  const USIZE_MAX := 0xFFFF_FFFF_FFFF_FFFF

  datatype Header = Header(name: string, value: string)

  datatype Request = Request(verb: string, rawPath: string, version: string, headers: seq<Header>, body: string)

  datatype ParseError =
    | EmptyRequest
    | HeadersTooLarge
    | MissingMethod
    | MissingPath
    | InvalidRequestLine
    | InvalidHeaderLine
    | EmptyHeaderName
    | TransferEncodingUnsupported
    | InvalidContentLength
    | ConflictingContentLength
    | BodyTooLarge
    | BodyTruncated

  predicate IsWhite(c: char) {
    c == ' ' || '\t' <= c <= '\r'
  }

  predicate EqualsIgnoreCase(s: string, t: string) {
    Lower(s) == Lower(t)
  }

  // ---------------------------------------------------------------- header terminator

  /** The blank line that ends a header section ends at position `e`. */
  predicate TerminatorEndsAt(s: string, e: nat) {
    4 <= e <= |s| && s[e - 4] == '\r' && s[e - 3] == '\n' && s[e - 2] == '\r' && s[e - 1] == '\n'
  }

  function FindTerminatorFrom(s: string, from: nat): (r: Option<nat>)
    ensures r.Some? ==> from + 4 <= r.value && TerminatorEndsAt(s, r.value)
    ensures forall e: nat :: from + 4 <= e && (r.Some? ==> e < r.value) ==> !TerminatorEndsAt(s, e)
    decreases |s| - from
  {
    if from + 4 > |s| then None
    else if TerminatorEndsAt(s, from + 4) then Some(from + 4)
    else FindTerminatorFrom(s, from + 1)
  }

  /** End of the first CRLFCRLF. */
  function FindHeaderTerminator(s: string): (r: Option<nat>)
    ensures r.Some? ==> TerminatorEndsAt(s, r.value)
    ensures forall e: nat :: (r.Some? ==> e < r.value) ==> !TerminatorEndsAt(s, e)
  {
    FindTerminatorFrom(s, 0)
  }

  /** What is found in the first `n` bytes is what is found in all of them, if it fits. */
  lemma TerminatorOfPrefix(s: string, n: nat)
    requires n <= |s|
    ensures FindHeaderTerminator(s[..n]) ==
      match FindHeaderTerminator(s) {
        case None => None
        case Some(e) => if e <= n then Some(e) else None
      }
  {
    forall e: nat | e <= n ensures TerminatorEndsAt(s[..n], e) == TerminatorEndsAt(s, e) {}
  }

  // ---------------------------------------------------------------- lines and words

  predicate CrlfAt(s: string, i: nat) {
    i + 1 < |s| && s[i] == '\r' && s[i + 1] == '\n'
  }

  ghost predicate CrlfFree(s: string) {
    forall i: nat :: !CrlfAt(s, i)
  }

  function FindCrlf(s: string, from: nat): (r: Option<nat>)
    ensures r.Some? ==> from <= r.value && CrlfAt(s, r.value)
    ensures forall i: nat :: from <= i && (r.Some? ==> i < r.value) ==> !CrlfAt(s, i)
    decreases |s| - from
  {
    if from + 1 >= |s| then None
    else if CrlfAt(s, from) then Some(from)
    else FindCrlf(s, from + 1)
  }

  /** Pieces between line ends; there is always at least one piece. */
  function SplitLines(s: string): (lines: seq<string>)
    ensures lines != []
    ensures forall i :: 0 <= i < |lines| ==> CrlfFree(lines[i])
  {
    match FindCrlf(s, 0)
    case None => [s]
    case Some(i) =>
      assert forall j: nat :: CrlfAt(s[..i], j) ==> CrlfAt(s, j);
      [s[..i]] + SplitLines(s[i + 2..])
  }

  function JoinLines(lines: seq<string>): string
    requires lines != []
  {
    if |lines| == 1 then lines[0] else lines[0] + CRLF + JoinLines(lines[1..])
  }

  /** Nothing is lost or moved by splitting: the pieces, with line ends between them, are the text. */
  lemma {:induction false} JoinOfSplit(s: string)
    ensures JoinLines(SplitLines(s)) == s
  {
    var found := FindCrlf(s, 0);
    if found.Some? {
      var i := found.value;
      JoinOfSplit(s[i + 2..]);
      hide FindCrlf;
      var lines := SplitLines(s);
      assert lines[1..] == SplitLines(s[i + 2..]);
      assert s == s[..i] + CRLF + s[i + 2..];
    }
  }

  function WordLength(s: string): (n: nat)
    ensures n <= |s|
    ensures forall i :: 0 <= i < n ==> !IsWhite(s[i])
    ensures n < |s| ==> IsWhite(s[n])
  {
    if s == "" || IsWhite(s[0]) then 0 else 1 + WordLength(s[1..])
  }

  /** A non-empty run of characters that are not white space. */
  predicate IsWord(s: string) {
    s != "" && forall i :: 0 <= i < |s| ==> !IsWhite(s[i])
  }

  /** The first word, when the text starts with one. */
  lemma FirstWordIsWord(t: string)
    requires t != "" && !IsWhite(t[0])
    ensures WordLength(t) > 0 && IsWord(t[..WordLength(t)])
  {
  }

  function SplitWords(s: string): seq<string>
    decreases |s|
  {
    var t := TrimLeft(s, IsWhite);
    if t == "" then []
    else
      var n := WordLength(t);
      [t[..n]] + SplitWords(t[n..])
  }

  lemma SplitFirstWord(s: string)
    ensures var t := TrimLeft(s, IsWhite); var n := WordLength(t);
      if t == "" then SplitWords(s) == []
      else 0 < n && |t| <= |s| && SplitWords(s) == [t[..n]] + SplitWords(t[n..])
  {
  }

  /** The pieces are words, whatever the white space between them. */
  lemma {:induction false} PiecesAreWords(s: string)
    ensures forall i :: 0 <= i < |SplitWords(s)| ==> IsWord(SplitWords(s)[i])
    decreases |s|
  {
    hide *;
    var t := TrimLeft(s, IsWhite);
    SplitFirstWord(s);
    if t != "" {
      FirstWordIsWord(t);
      PiecesAreWords(t[WordLength(t)..]);
    }
  }

  function FindColon(s: string): (r: Option<nat>)
    ensures r.Some? ==> r.value < |s| && s[r.value] == ':' && ':' !in s[..r.value]
    ensures r.None? ==> ':' !in s
  {
    if s == "" then None
    else if s[0] == ':' then Some(0)
    else match FindColon(s[1..]) {
      case None => None
      case Some(i) =>
        assert s[..i + 1] == [s[0]] + s[1..][..i];
        Some(i + 1)
    }
  }

  // ---------------------------------------------------------------- request line and headers

  function ParseRequestLine(line: string): Result<(string, string, string), ParseError> {
    var words := SplitWords(line);
    if |words| == 0 then Failure(MissingMethod)
    else if |words| == 1 then Failure(MissingPath)
    else if |words| > 3 then Failure(InvalidRequestLine)
    else Success((words[0], words[1], if |words| == 3 then words[2] else "HTTP/1.1"))
  }

  /** Transfer codings are not supported, except one that changes nothing. */
  predicate UnsupportedCoding(h: Header) {
    && EqualsIgnoreCase(h.name, "transfer-encoding")
    && h.value != ""
    && !EqualsIgnoreCase(h.value, "identity")
  }

  function ParseHeaderLine(line: string): Result<Header, ParseError> {
    match FindColon(line)
    case None => Failure(InvalidHeaderLine)
    case Some(i) =>
      var h := Header(Trim(line[..i], IsWhite), Trim(line[i + 1..], IsWhite));
      if h.name == "" then Failure(EmptyHeaderName)
      else if UnsupportedCoding(h) then Failure(TransferEncodingUnsupported)
      else Success(h)
  }

  function ParseHeaderLines(lines: seq<string>): Result<seq<Header>, ParseError> {
    if lines == [] then Success([])
    else if lines[0] == "" then ParseHeaderLines(lines[1..])
    else
      var h :- ParseHeaderLine(lines[0]);
      var rest :- ParseHeaderLines(lines[1..]);
      Success([h] + rest)
  }

  /** An unsigned 64-bit numeral, with an optional plus sign. */
  function ParseUsize(value: string): (r: Result<nat, ParseError>)
    ensures r.Success? ==> r.value <= USIZE_MAX
    ensures r.Failure? ==> r.error == InvalidContentLength
  {
    var digits := if value != "" && value[0] == '+' then value[1..] else value;
    if digits == "" || !AllDigits(digits) || ParseNat(digits) > USIZE_MAX then Failure(InvalidContentLength)
    else Success(ParseNat(digits))
  }

  /** The accepted texts for `n`: an optional plus sign, any zeros, and the numeral of `n`. */
  ghost predicate Denotes(value: string, n: nat) {
    exists zeros: nat ::
      value == Zeros(zeros) + PrintNat(n) || value == "+" + (Zeros(zeros) + PrintNat(n))
  }

  /** A text is accepted exactly if it denotes a 64-bit number, and that number is returned. */
  lemma UsizeExactly(value: string, n: nat)
    ensures ParseUsize(value) == Success(n) <==> Denotes(value, n) && n <= USIZE_MAX
  {
    hide ParseNat, PrintNat, Zeros;
    if Denotes(value, n) {
      var zeros: nat :| value == Zeros(zeros) + PrintNat(n) || value == "+" + (Zeros(zeros) + PrintNat(n));
      var digits := Zeros(zeros) + PrintNat(n);
      ParseOfPadded(zeros, n);
      assert digits != "" && IsDigit(digits[0]);
      assert ("+" + digits)[1..] == digits;
    }
    if ParseUsize(value) == Success(n) {
      var digits := if value != "" && value[0] == '+' then value[1..] else value;
      var zeros := PaddedOfDigits(digits);
      assert value == digits || value == "+" + digits;
    }
  }

  predicate IsContentLength(h: Header) {
    EqualsIgnoreCase(h.name, "content-length")
  }

  /** The Content-Length declared so far, `seen`, carried over the remaining headers. */
  function ContentLengthFrom(headers: seq<Header>, seen: Option<nat>): Result<Option<nat>, ParseError> {
    if headers == [] then Success(seen)
    else if !IsContentLength(headers[0]) then ContentLengthFrom(headers[1..], seen)
    else
      var n :- ParseUsize(headers[0].value);
      if seen.Some? && seen.value != n then Failure(ConflictingContentLength)
      else ContentLengthFrom(headers[1..], Some(n))
  }

  function ContentLength(headers: seq<Header>): Result<nat, ParseError> {
    var n :- ContentLengthFrom(headers, None);
    Success(if n.Some? then n.value else 0)
  }

  // ---------------------------------------------------------------- one-shot parse

  datatype Head = Head(verb: string, rawPath: string, version: string, headers: seq<Header>, length: nat)

  /** The header section, from the request line to the blank line. */
  function ParseHead(text: string): Result<Head, ParseError> {
    var lines := SplitLines(text);
    var (verb, rawPath, version) :- ParseRequestLine(lines[0]);
    var headers :- ParseHeaderLines(lines[1..]);
    var length :- ContentLength(headers);
    if length > MAX_BODY_BYTES then Failure(BodyTooLarge)
    else Success(Head(verb, rawPath, version, headers, length))
  }

  /** The request whose header section ends at `e`. */
  function ParseAt(s: string, e: nat): Result<Request, ParseError>
    requires e <= |s|
  {
    var head :- ParseHead(s[..e]);
    if |s| - e < head.length then Failure(BodyTruncated)
    else Success(Request(head.verb, head.rawPath, head.version, head.headers, s[e..e + head.length]))
  }

  /** The parse of a connection's whole byte string, as if it had been read at once. */
  function ParseOnce(s: string): Result<Request, ParseError> {
    match FindHeaderTerminator(s)
    case None => Failure(if |s| > MAX_HEADER_BYTES then HeadersTooLarge else EmptyRequest)
    case Some(e) => ParseAt(s, e)
  }

  /** The body is the declared number of bytes, and they are those right after the header section. */
  ghost predicate IsBodyOf(request: Request, s: string) {
    && ContentLength(request.headers) == Success(|request.body|)
    && var end := FindHeaderTerminator(s);
    && end.Some?
    && end.value + |request.body| <= |s|
    && request.body == s[end.value..end.value + |request.body|]
  }

  lemma ParsedBody(s: string)
    requires ParseOnce(s).Success?
    ensures IsBodyOf(ParseOnce(s).value, s)
  {
    hide ParseHead, ContentLength;
    var e := FindHeaderTerminator(s).value;
    ParsedHeadLength(s[..e]);
    hide FindHeaderTerminator;
  }

  lemma ParsedHeadLength(text: string)
    requires ParseHead(text).Success?
    ensures ContentLength(ParseHead(text).value.headers) == Success(ParseHead(text).value.length)
    ensures ParseHead(text).value.length <= MAX_BODY_BYTES
  {
    hide ParseHeaderLines, ContentLength, SplitLines, ParseRequestLine;
  }
}
