/**
 The incremental request reader: socket chunks of at most 4096 bytes, proved equal to
 the one-shot parse of everything the client sends, up to the header size limit.
 */
module HttpReader {
  import opened Wrappers
  import opened HttpSyntax

  const READ_SIZE := 4096

  /** The bytes of a sequence of reads. */
  ghost function Concat(chunks: seq<string>): string {
    if chunks == [] then "" else Concat(chunks[..|chunks| - 1]) + chunks[|chunks| - 1]
  }

  /** Reads return at least one byte and at most a buffer full; only the end of the stream reads as empty. */
  ghost predicate ValidReads(chunks: seq<string>) {
    forall i :: 0 <= i < |chunks| ==> 1 <= |chunks[i]| <= READ_SIZE
  }

  lemma {:induction false} ConcatPrefix(chunks: seq<string>, k: nat)
    requires k <= |chunks|
    ensures Concat(chunks[..k]) <= Concat(chunks)
    decreases |chunks|
  {
    if k < |chunks| {
      var init := chunks[..|chunks| - 1];
      assert init[..k] == chunks[..k];
      ConcatPrefix(init, k);
    } else {
      assert chunks[..k] == chunks;
    }
  }

  lemma ConcatNext(chunks: seq<string>, k: nat)
    requires k < |chunks|
    ensures Concat(chunks[..k + 1]) == Concat(chunks[..k]) + chunks[k]
    ensures Concat(chunks[..k + 1]) <= Concat(chunks)
  {
    assert chunks[..k + 1][..k] == chunks[..k];
    ConcatPrefix(chunks, k + 1);
  }

  /** Some read leaves more than the limit in the buffer while the header, ending at `e`, is still incomplete. */
  ghost predicate LimitTrips(chunks: seq<string>, e: nat) {
    exists k :: 0 <= k <= |chunks| && MAX_HEADER_BYTES < |Concat(chunks[..k])| < e
  }

  /** What the reader returns for these reads. */
  ghost function ReaderResult(chunks: seq<string>): Result<Request, ParseError> {
    var s := Concat(chunks);
    var end := FindHeaderTerminator(s);
    if end.Some? && LimitTrips(chunks, end.value) then Failure(HeadersTooLarge) else ParseOnce(s)
  }

  /** The client side of a connection: the reads still to come, then end of stream. */
  class ClientStream {
    var chunks: seq<string>

    constructor (chunks: seq<string>)
      ensures this.chunks == chunks
    {
      this.chunks := chunks;
    }

    method Read() returns (chunk: string)
      modifies this
      ensures if old(chunks) == [] then chunk == "" && chunks == [] else [chunk] + chunks == old(chunks)
    {
      if chunks == [] {
        chunk := "";
      } else {
        chunk, chunks := chunks[0], chunks[1..];
      }
    }
  }

  function Prefixed(headers: seq<Header>, rest: Result<seq<Header>, ParseError>): Result<seq<Header>, ParseError> {
    match rest
    case Success(more) => Success(headers + more)
    case Failure(error) => Failure(error)
  }

  method CollectHeaders(lines: seq<string>) returns (r: Result<seq<Header>, ParseError>)
    ensures r == ParseHeaderLines(lines)
  {
    hide ParseHeaderLine;
    var headers: seq<Header> := [];
    var i := 0;
    assert lines[0..] == lines;
    assert forall more: seq<Header> :: [] + more == more;
    while i < |lines|
      invariant 0 <= i <= |lines|
      invariant ParseHeaderLines(lines) == Prefixed(headers, ParseHeaderLines(lines[i..]))
    {
      assert lines[i..][1..] == lines[i + 1..];
      if lines[i] != "" {
        var parsed := ParseHeaderLine(lines[i]);
        if parsed.Failure? {
          return Failure(parsed.error);
        }
        ghost var before := headers;
        headers := headers + [parsed.value];
        assert forall more :: before + ([parsed.value] + more) == headers + more;
      }
      i := i + 1;
    }
    assert lines[i..] == [] && headers + [] == headers;
    return Success(headers);
  }

  method ParseContentLength(headers: seq<Header>) returns (r: Result<nat, ParseError>)
    ensures r == ContentLength(headers)
  {
    hide ParseUsize, IsContentLength;
    var contentLength: Option<nat> := None;
    for i := 0 to |headers|
      invariant ContentLengthFrom(headers, None) == ContentLengthFrom(headers[i..], contentLength)
    {
      assert headers[i..][1..] == headers[i + 1..];
      if IsContentLength(headers[i]) {
        var parsed := ParseUsize(headers[i].value);
        if parsed.Failure? {
          return Failure(parsed.error);
        }
        if contentLength.Some? && contentLength.value != parsed.value {
          return Failure(ConflictingContentLength);
        }
        contentLength := Some(parsed.value);
      }
    }
    return Success(if contentLength.Some? then contentLength.value else 0);
  }

  /** Reads until the blank line: the buffer, and where the header section ends in it. */
  method ReadHeaderSection(stream: ClientStream) returns (buffer: string, r: Result<nat, ParseError>, ghost k: nat)
    requires ValidReads(stream.chunks)
    modifies stream
    ensures k <= |old(stream.chunks)| && stream.chunks == old(stream.chunks)[k..]
    ensures buffer == Concat(old(stream.chunks)[..k])
    ensures r.Success? ==> FindHeaderTerminator(buffer) == Some(r.value)
    ensures r.Success? ==> !LimitTrips(old(stream.chunks), r.value)
    ensures r.Success? ==> k > 0 && |Concat(old(stream.chunks)[..k - 1])| < r.value
    ensures r.Failure? ==> FindHeaderTerminator(buffer).None?
    ensures r.Failure? ==> r.error == if |buffer| > MAX_HEADER_BYTES then HeadersTooLarge else EmptyRequest
    ensures r.Failure? && |buffer| <= MAX_HEADER_BYTES ==> stream.chunks == []
  {
    ghost var all := stream.chunks;
    buffer, k := "", 0;
    while true
      invariant 0 <= k <= |all| && stream.chunks == all[k..]
      invariant buffer == Concat(all[..k])
      invariant FindHeaderTerminator(buffer).None? && |buffer| <= MAX_HEADER_BYTES
      invariant forall j :: 0 <= j <= k ==> |Concat(all[..j])| <= MAX_HEADER_BYTES
      decreases |stream.chunks|
    {
      assert k < |all| ==> all[k..] == [all[k]] + all[k + 1..];
      var chunk := stream.Read();
      if |chunk| == 0 {
        return buffer, Failure(EmptyRequest), k;
      }
      assert chunk == all[k];
      ConcatNext(all, k);
      ghost var before := buffer;
      buffer, k := buffer + chunk, k + 1;
      var end := FindHeaderTerminator(buffer);
      if end.Some? {
        TerminatorOfPrefix(buffer, |before|);
        assert buffer[..|before|] == before;
        NoLimitTrip(all, k, end.value);
        return buffer, Success(end.value), k;
      }
      if |buffer| > MAX_HEADER_BYTES {
        return buffer, Failure(HeadersTooLarge), k;
      }
    }
  }

  lemma NoLimitTrip(chunks: seq<string>, k: nat, e: nat)
    requires 0 < k <= |chunks| && e <= |Concat(chunks[..k])|
    requires forall j :: 0 <= j < k ==> |Concat(chunks[..j])| <= MAX_HEADER_BYTES
    ensures !LimitTrips(chunks, e)
  {
    forall j | 0 <= j <= |chunks| ensures !(MAX_HEADER_BYTES < |Concat(chunks[..j])| < e) {
      if j >= k {
        assert chunks[..j][..k] == chunks[..k];
        ConcatPrefix(chunks[..j], k);
      }
    }
  }

  /** Where the next read lies in everything the client sends. */
  lemma ReadPlace(buffer: string, all: seq<string>, k: nat)
    requires k < |all|
    ensures var s, n := buffer + Concat(all), |buffer| + |Concat(all[..k])|;
      n + |all[k]| <= |s| && s[n..n + |all[k]|] == all[k]
    ensures |Concat(all[..k + 1])| == |Concat(all[..k])| + |all[k]|
  {
    ConcatNext(all, k);
  }

  /** `body` is what the first `n` bytes of `s` hold of the `length` bytes that start at `e`. */
  ghost predicate BodySoFar(s: string, e: nat, length: nat, body: string, n: nat) {
    && |body| <= length
    && e + |body| <= n <= |s|
    && body == s[e..e + |body|]
    && (|body| < length ==> e + |body| == n)
  }

  lemma BodyBounds(s: string, e: nat, length: nat, body: string, n: nat)
    requires BodySoFar(s, e, length, body, n)
    ensures |body| <= length && e + |body| <= n <= |s|
    ensures |body| < length ==> e + |body| == n
    ensures |body| == length ==> body == s[e..e + length]
  {
  }

  lemma BodyGrows(s: string, e: nat, length: nat, body: string, n: nat, chunk: string)
    requires BodySoFar(s, e, length, body, n) && |body| < length
    requires n + |chunk| <= |s| && s[n..n + |chunk|] == chunk
    ensures var copied := if |chunk| < length - |body| then |chunk| else length - |body|;
      BodySoFar(s, e, length, body + chunk[..copied], n + |chunk|)
  {
    var copied := if |chunk| < length - |body| then |chunk| else length - |body|;
    assert chunk[..copied] == s[n..n + copied];
    assert s[e..n] + s[n..n + copied] == s[e..n + copied];
  }

  /** Reads until the body has `length` bytes, starting from what came with the header section. */
  method ReadBody(stream: ClientStream, buffer: string, e: nat, length: nat) returns (r: Result<string, ParseError>, ghost k: nat)
    requires ValidReads(stream.chunks)
    requires e <= |buffer|
    modifies stream
    ensures k <= |old(stream.chunks)| && stream.chunks == old(stream.chunks)[k..]
    ensures k > 0 ==> |buffer| + |Concat(old(stream.chunks)[..k - 1])| < e + length
    ensures var s := buffer + Concat(old(stream.chunks));
      r == if |s| < e + length then Failure(BodyTruncated) else Success(s[e..e + length])
  {
    hide Concat, BodySoFar, ValidReads;
    ghost var all := stream.chunks;
    ghost var s := buffer + Concat(all);
    k := 0;
    var alreadyRead := if |buffer| - e < length then |buffer| - e else length;
    var body := buffer[e..e + alreadyRead];
    ghost var n := |buffer|;
    NothingRead(buffer, all, e, length, body);
    while |body| < length
      invariant 0 <= k <= |all| && stream.chunks == all[k..]
      invariant n == |buffer| + |Concat(all[..k])|
      invariant k > 0 ==> |buffer| + |Concat(all[..k - 1])| < e + length
      invariant |body| <= length && BodySoFar(s, e, length, body, n)
      decreases |stream.chunks|
    {
      BodyBounds(s, e, length, body, n);
      NextRead(all, k);
      var chunk := stream.Read();
      if |chunk| == 0 {
        assert n == |s|;
        return Failure(BodyTruncated), k;
      }
      ReadPlace(buffer, all, k);
      BodyGrows(s, e, length, body, n, chunk);
      var remaining := length - |body|;
      var copied := if |chunk| < remaining then |chunk| else remaining;
      body := body + chunk[..copied];
      n, k := n + |chunk|, k + 1;
    }
    BodyBounds(s, e, length, body, n);
    return Success(body), k;
  }

  lemma NothingRead(buffer: string, all: seq<string>, e: nat, length: nat, body: string)
    requires e <= |buffer|
    requires body == buffer[e..e + if |buffer| - e < length then |buffer| - e else length]
    ensures Concat(all[..0]) == "" && BodySoFar(buffer + Concat(all), e, length, body, |buffer|)
  {
    hide Concat;
    assert body == (buffer + Concat(all))[e..e + |body|];
    assert all[..0] == [];
    ConcatOfNone();
  }

  lemma ConcatOfNone()
    ensures Concat([]) == ""
  {
  }

  /** The next read is the next chunk, which is not empty, until all have been read. */
  lemma NextRead(all: seq<string>, k: nat)
    requires ValidReads(all) && k <= |all|
    ensures k < |all| ==> all[k..] == [all[k]] + all[k + 1..] && all[k] != ""
    ensures k == |all| ==> all[k..] == [] && all[..k] == all
  {
  }

  lemma ConcatLast(chunks: seq<string>)
    requires chunks != []
    ensures Concat(chunks) == Concat(chunks[..|chunks| - 1]) + chunks[|chunks| - 1]
  {
  }

  lemma {:induction false} ConcatAppend(a: seq<string>, b: seq<string>)
    ensures Concat(a + b) == Concat(a) + Concat(b)
    decreases |b|
  {
    ConcatOfNone();
    hide Concat;
    if b == [] {
      assert a + b == a;
    } else {
      var init := b[..|b| - 1];
      assert (a + b)[..|a + b| - 1] == a + init;
      ConcatAppend(a, init);
      ConcatLast(b);
      ConcatLast(a + b);
    }
  }

  lemma {:induction false} ConcatSplit(chunks: seq<string>, k: nat)
    requires k <= |chunks|
    ensures Concat(chunks) == Concat(chunks[..k]) + Concat(chunks[k..])
  {
    assert chunks == chunks[..k] + chunks[k..];
    ConcatAppend(chunks[..k], chunks[k..]);
  }

  method ParseSection(text: string) returns (r: Result<Head, ParseError>)
    ensures r == ParseHead(text)
  {
    hide SplitLines, ParseRequestLine, ParseHeaderLines, ContentLength;
    var lines := SplitLines(text);
    var requestLine := ParseRequestLine(lines[0]);
    if requestLine.Failure? {
      return Failure(requestLine.error);
    }
    var headers := CollectHeaders(lines[1..]);
    if headers.Failure? {
      return Failure(headers.error);
    }
    var length := ParseContentLength(headers.value);
    if length.Failure? {
      return Failure(length.error);
    }
    if length.value > MAX_BODY_BYTES {
      return Failure(BodyTooLarge);
    }
    var (verb, rawPath, version) := requestLine.value;
    return Success(Head(verb, rawPath, version, headers.value, length.value));
  }

  /** What the header section found in the buffer means for the whole byte string. */
  lemma SectionDecides(all: seq<string>, k: nat)
    requires k <= |all|
    ensures Concat(all[..k]) <= Concat(all)
    ensures var found := FindHeaderTerminator(Concat(all[..k]));
      match found {
        case Some(e) =>
          && FindHeaderTerminator(Concat(all)) == found
          && Concat(all[..k])[..e] == Concat(all)[..e]
        case None =>
          |Concat(all[..k])| > MAX_HEADER_BYTES || k == |all| ==>
            ReaderResult(all) ==
            Failure(if |Concat(all[..k])| > MAX_HEADER_BYTES then HeadersTooLarge else EmptyRequest)
      }
  {
    hide FindHeaderTerminator, ParseAt;
    ConcatPrefix(all, k);
    var s, buffer := Concat(all), Concat(all[..k]);
    assert s[..|buffer|] == buffer;
    TerminatorOfPrefix(s, |buffer|);
    if k == |all| {
      assert all[..k] == all;
    }
    if |buffer| > MAX_HEADER_BYTES && FindHeaderTerminator(buffer).None? && FindHeaderTerminator(s).Some? {
      assert LimitTrips(all, FindHeaderTerminator(s).value);
    }
  }

  /**
   The reader as the program does. Its result depends on the chunking only through
   LimitTrips, and it never waits for bytes beyond the request: before the last read, the
   bytes in hand did not hold the whole request.
   */
  method ParseHttpRequest(stream: ClientStream) returns (r: Result<Request, ParseError>, ghost k: nat)
    requires ValidReads(stream.chunks)
    modifies stream
    ensures r == ReaderResult(old(stream.chunks))
    ensures k <= |old(stream.chunks)| && stream.chunks == old(stream.chunks)[k..]
    ensures r.Success? && k > 0 ==> ParseOnce(Concat(old(stream.chunks)[..k - 1])).Failure?
  {
    hide ParseHead, FindHeaderTerminator, Concat, LimitTrips;
    ghost var all := stream.chunks;
    var buffer, section;
    buffer, section, k := ReadHeaderSection(stream);
    SectionDecides(all, k);
    ghost var k0 := k;
    if section.Failure? {
      return Failure(section.error), k;
    }
    var head := ParseSection(buffer[..section.value]);
    if head.Failure? {
      return Failure(head.error), k;
    }
    ConcatSplit(all, k0);
    var body, k1 := ReadBody(stream, buffer, section.value, head.value.length);
    k := k0 + k1;
    assert all[k0..][k1..] == all[k..];
    if body.Failure? {
      return Failure(body.error), k;
    }
    IncompleteBefore(all, k0, k1, section.value, head.value.length);
    r := Success(Request(head.value.verb, head.value.rawPath, head.value.version, head.value.headers, body.value));
  }

  /** One read earlier, either the header section or the body was incomplete. */
  lemma IncompleteBefore(all: seq<string>, k0: nat, k1: nat, e: nat, length: nat)
    requires 0 < k0 <= k0 + k1 <= |all|
    requires FindHeaderTerminator(Concat(all[..k0])) == Some(e) && |Concat(all[..k0 - 1])| < e
    requires k1 > 0 ==> |Concat(all[..k0])| + |Concat(all[k0..][..k1 - 1])| < e + length
    requires ParseHead(Concat(all[..k0])[..e]).Success? && ParseHead(Concat(all[..k0])[..e]).value.length == length
    ensures ParseOnce(Concat(all[..k0 + k1 - 1])).Failure?
  {
    hide FindHeaderTerminator, ParseHead;
    var before := all[..k0 + k1 - 1];
    var header := Concat(all[..k0]);
    if k1 == 0 {
      ConcatNext(all[..k0], k0 - 1);
      assert all[..k0][..k0 - 1] == before && all[..k0][..k0] == all[..k0];
      TerminatorOfPrefix(header, |Concat(before)|);
      assert header[..|Concat(before)|] == Concat(before);
    } else {
      assert before[..k0] == all[..k0] && before[k0..] == all[k0..][..k1 - 1];
      ConcatSplit(before, k0);
      TerminatorOfPrefix(Concat(before), |header|);
      assert Concat(before)[..|header|] == header;
      assert FindHeaderTerminator(Concat(before)) == Some(e);
      assert Concat(before)[..e] == header[..e];
    }
  }

  // ---------------------------------------------------------------- what the client sees

  /**
   Chunk independence. If the header section is absent or ends within the limit, every way
   of cutting the same bytes into reads gives the result of parsing them at once.
   */
  lemma ChunkIndependence(chunks: seq<string>)
    requires var end := FindHeaderTerminator(Concat(chunks)); end.Some? ==> end.value <= MAX_HEADER_BYTES
    ensures ReaderResult(chunks) == ParseOnce(Concat(chunks))
  {
  }

  /** Beyond the limit the outcome depends on where the reads fall, and by no more than one read. */
  lemma AcceptedHeaderBound(chunks: seq<string>)
    requires ValidReads(chunks) && ReaderResult(chunks).Success?
    ensures FindHeaderTerminator(Concat(chunks)).Some?
    ensures FindHeaderTerminator(Concat(chunks)).value <= MAX_HEADER_BYTES + READ_SIZE
  {
    var e := FindHeaderTerminator(Concat(chunks)).value;
    if e > MAX_HEADER_BYTES + READ_SIZE {
      assert chunks[..|chunks|] == chunks;
      var k := FirstOver(chunks, |chunks|);
      assert LimitTrips(chunks, e);
    }
  }

  /** The first read that takes the buffer over the limit takes it over by at most a buffer full. */
  lemma {:induction false} FirstOver(chunks: seq<string>, n: nat) returns (k: nat)
    requires ValidReads(chunks) && n <= |chunks| && |Concat(chunks[..n])| > MAX_HEADER_BYTES
    ensures k <= n && MAX_HEADER_BYTES < |Concat(chunks[..k])| <= MAX_HEADER_BYTES + READ_SIZE
    decreases n
  {
    if n == 0 {
      assert false;
    } else {
      ConcatNext(chunks, n - 1);
      if |Concat(chunks[..n - 1])| > MAX_HEADER_BYTES {
        k := FirstOver(chunks, n - 1);
      } else {
        k := n;
      }
    }
  }

  /** An accepted request carries exactly the Content-Length bytes that follow its header section. */
  lemma AcceptedBody(chunks: seq<string>)
    requires ReaderResult(chunks).Success?
    ensures IsBodyOf(ReaderResult(chunks).value, Concat(chunks))
  {
    ParsedBody(Concat(chunks));
  }
}
