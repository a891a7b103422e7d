/**
 * Properties of the request framer: the buffer bound, waiting for the
 * header terminator, the stall on a short request line, header-line
 * parsing, Content-Length framing, the reset after each request and the
 * keep-alive test.
 */
module ParserProperties {
  import opened Wrappers
  import opened Text
  import opened Numbers
  import Utf8
  import opened SocketErrors
  import opened Requests
  import opened Parsing

  // ---------------------------------------------------------------------------
  // Buffer bound and buffer discipline

  /** A call fails with "Buffer overflow" exactly when the grown buffer is
      larger than 65536 bytes, and then the chunk stays appended. */
  lemma OverflowIff(s: ParserState, data: seq<byte>)
    requires Consistent(s)
    ensures Feed(s, data).result == Failure(OverflowError) <==> |s.buffer| + |data| > MaxBufferSize
    ensures |s.buffer| + |data| > MaxBufferSize ==> Feed(s, data).next == s.(buffer := s.buffer + data)
  {
    assert EncodingError != OverflowError by {
      assert EncodingError.message[0] != OverflowError.message[0];
    }
  }

  /** `next` is consistent and its buffer is a suffix of `b`. */
  predicate KeepsSuffix(b: seq<byte>, next: ParserState)
  {
    Consistent(next) && |next.buffer| <= |b| && next.buffer == b[|b| - |next.buffer|..]
  }

  /** Every call leaves a consistent state whose buffer is a suffix of the old
      buffer followed by the chunk: bytes leave only from the front. */
  lemma FeedKeepsSuffix(s: ParserState, data: seq<byte>)
    requires Consistent(s)
    ensures KeepsSuffix(s.buffer + data, Feed(s, data).next)
  {
    var b := s.buffer + data;
    if |b| > MaxBufferSize {
      assert Feed(s, data).next == s.(buffer := b);
      assert b[|b| - |b|..] == b;
    } else if !s.isParsingHeaders {
      BodyPhaseFraming(s, data);
      if |b| >= s.contentLength {
        assert b[s.contentLength..] == b[|b| - |b[s.contentLength..]|..];
      } else {
        assert b[|b| - |b|..] == b;
      }
    } else {
      HeaderPhaseKeepsSuffix(s, data);
    }
  }

  /** The header-phase half of `FeedKeepsSuffix`. */
  lemma HeaderPhaseKeepsSuffix(s: ParserState, data: seq<byte>)
    requires Consistent(s) && s.isParsingHeaders
    requires |s.buffer + data| <= MaxBufferSize
    ensures KeepsSuffix(s.buffer + data, Feed(s, data).next)
  {
    var b := s.buffer + data;
    var found := FindFirst(b, HeaderTerminator);
    if found.Some? && Utf8.Decode(b[..found.value + 4]).Some?
       && |RequestWords(Utf8.Decode(b[..found.value + 4]).value)| >= 2 {
      FramedKeepsSuffix(s, data, found.value, Utf8.Decode(b[..found.value + 4]).value);
    } else {
      HeaderPhaseHolds(s, data);
      SuffixFrom(b, 0);
    }
  }

  /** A processed header block leaves a suffix in each of the three cases. */
  lemma FramedKeepsSuffix(s: ParserState, data: seq<byte>, i: nat, text: string)
    requires Consistent(s) && s.isParsingHeaders
    requires |s.buffer + data| <= MaxBufferSize
    requires FindFirst(s.buffer + data, HeaderTerminator) == Some(i)
    requires Utf8.Decode((s.buffer + data)[..i + 4]) == Some(text)
    requires |RequestWords(text)| >= 2
    ensures KeepsSuffix(s.buffer + data, Feed(s, data).next)
  {
    HeaderBlockReached(s, data, i, text);
    BlockKeepsSuffix(s.(buffer := s.buffer + data), text, i + 4);
  }

  /** A header block with a two-word request line leaves a consistent state
      whose buffer is a suffix of the examined one. */
  lemma BlockKeepsSuffix(g: ParserState, text: string, end: nat)
    requires Consistent(g) && g.isParsingHeaders && end <= |g.buffer|
    requires |RequestWords(text)| >= 2
    ensures KeepsSuffix(g.buffer, ParseHeaderBlock(g, text, end).next)
  {
    var b := g.buffer;
    var n := ContentLengthOf(BlockHeaders(text), 0);
    var rest := b[end..];
    var next := ParseHeaderBlock(g, text, end).next;
    if n == 0 || |rest| >= n {
      var left := if n > 0 then rest[n..] else rest;
      assert next == Reset(left);
      if n > 0 {
        assert left == b[end + n..];
      }
      SuffixFrom(b, |b| - |left|);
    } else {
      assert next.buffer == rest && Consistent(next);
      SuffixFrom(b, end);
    }
  }

  /** Dropping a prefix leaves a suffix. */
  lemma SuffixFrom(b: seq<byte>, k: nat)
    requires k <= |b|
    ensures b[k..] == b[|b| - |b[k..]|..]
  {
  }

  /** In the header phase, a call that does not reach a two-word request
      line changes nothing but the buffer. */
  lemma HeaderPhaseHolds(s: ParserState, data: seq<byte>)
    requires Consistent(s) && s.isParsingHeaders
    requires |s.buffer + data| <= MaxBufferSize
    requires var b := s.buffer + data;
             var found := FindFirst(b, HeaderTerminator);
             !(found.Some? && Utf8.Decode(b[..found.value + 4]).Some?
               && |RequestWords(Utf8.Decode(b[..found.value + 4]).value)| >= 2)
    ensures Feed(s, data).next == s.(buffer := s.buffer + data)
  {
    var b := s.buffer + data;
    var g := s.(buffer := b);
    assert Feed(s, data) == ParseBuffered(g);
    match FindFirst(b, HeaderTerminator)
    case None =>
    case Some(i) =>
      match Utf8.Decode(b[..i + 4])
      case None =>
      case Some(text) =>
        assert |RequestWords(text)| < 2;
        assert ParseBuffered(g) == ParseHeaderBlock(g, text, i + 4);
  }

  /** Emitting a request returns the parser to its initial phase, keeping
      only the bytes that follow the request. */
  lemma EmitResets(s: ParserState, data: seq<byte>)
    requires Consistent(s)
    requires Feed(s, data).result.Success? && Feed(s, data).result.value.Some?
    ensures Feed(s, data).next == Reset(Feed(s, data).next.buffer)
  {
  }

  // ---------------------------------------------------------------------------
  // Waiting for the header block

  /** Without CRLF CRLF in the grown buffer nothing is emitted and only the
      buffer changes. */
  lemma WaitsForTerminator(s: ParserState, data: seq<byte>)
    requires Consistent(s) && s.isParsingHeaders
    requires |s.buffer + data| <= MaxBufferSize
    requires forall i: nat :: !OccursAt(s.buffer + data, HeaderTerminator, i)
    ensures Feed(s, data) == Step(Success(None), s.(buffer := s.buffer + data))
  {
  }

  /** The state of a parser in the header phase whose buffer holds a decodable
      header block with fewer than two words on its request line. */
  predicate RequestLineIncomplete(s: ParserState)
  {
    && s.isParsingHeaders
    && FindFirst(s.buffer, HeaderTerminator).Some?
    && var end := FindFirst(s.buffer, HeaderTerminator).value + |HeaderTerminator|;
       && Utf8.Decode(s.buffer[..end]).Some?
       && |RequestWords(Utf8.Decode(s.buffer[..end]).value)| < 2
  }

  /** Such a parser answers "need more data" to every further chunk that fits
      the buffer, keeps the chunk and stays in the same condition: the
      connection is stuck until the buffer overflows. */
  lemma {:induction false} IncompleteRequestLineStalls(s: ParserState, data: seq<byte>)
    requires Consistent(s) && RequestLineIncomplete(s)
    requires |s.buffer + data| <= MaxBufferSize
    ensures Feed(s, data) == Step(Success(None), s.(buffer := s.buffer + data))
    ensures RequestLineIncomplete(Feed(s, data).next)
  {
    var i := FindFirst(s.buffer, HeaderTerminator).value;
    FindFirstExtend(s.buffer, HeaderTerminator, data);
    assert (s.buffer + data)[..i + |HeaderTerminator|] == s.buffer[..i + |HeaderTerminator|];
  }

  /** The state of a parser in the header phase whose buffer holds a header
      block that is not valid UTF-8. */
  predicate BlockUndecodable(s: ParserState)
  {
    && s.isParsingHeaders
    && FindFirst(s.buffer, HeaderTerminator).Some?
    && Utf8.Decode(s.buffer[..FindFirst(s.buffer, HeaderTerminator).value + |HeaderTerminator|]).None?
  }

  /** Such a parser fails every further call, with the chunk appended and the
      condition kept: with the encoding error while the buffer fits, and with
      the overflow error once it does not. */
  lemma {:induction false} InvalidEncodingPersists(s: ParserState, data: seq<byte>)
    requires Consistent(s) && BlockUndecodable(s)
    ensures |s.buffer + data| <= MaxBufferSize ==>
              Feed(s, data) == Step(Failure(EncodingError), s.(buffer := s.buffer + data))
    ensures |s.buffer + data| > MaxBufferSize ==>
              Feed(s, data) == Step(Failure(OverflowError), s.(buffer := s.buffer + data))
    ensures BlockUndecodable(Feed(s, data).next)
  {
    var i := FindFirst(s.buffer, HeaderTerminator).value;
    FindFirstExtend(s.buffer, HeaderTerminator, data);
    assert (s.buffer + data)[..i + |HeaderTerminator|] == s.buffer[..i + |HeaderTerminator|];
  }

  // ---------------------------------------------------------------------------
  // Framing by Content-Length

  /** The words of the request line of a header block. */
  function RequestWords(text: string): seq<string>
  {
    Split(Split(text, CRLF)[0], " ")
  }

  /** The header map of a header block. */
  function BlockHeaders(text: string): map<string, string>
  {
    HeaderFields(Split(text, CRLF)[1..])
  }

  /** Once the header block ending at the first CRLF CRLF has been decoded and
      its request line has two words, the declared length `n` decides:
      `n <= 0` emits a request without body; otherwise the body is exactly
      the `n` bytes after the terminator, emitted when they are all present,
      and whatever follows them stays buffered; fewer bytes enter the body
      phase holding the bytes read so far. */
  lemma HeaderPhaseFraming(s: ParserState, data: seq<byte>, i: nat, text: string)
    requires Consistent(s) && s.isParsingHeaders
    requires |s.buffer + data| <= MaxBufferSize
    requires FindFirst(s.buffer + data, HeaderTerminator) == Some(i)
    requires Utf8.Decode((s.buffer + data)[..i + 4]) == Some(text)
    requires |RequestWords(text)| >= 2
    ensures var b := s.buffer + data;
            var n := ContentLengthOf(BlockHeaders(text), 0);
            && (n <= 0 ==>
                  Feed(s, data) == Step(Success(Some(NewRequest(RequestWords(text)[0], RequestWords(text)[1], BlockHeaders(text), None))),
                                        Reset(b[i + 4..])))
            && (n > 0 && i + 4 + n <= |b| ==>
                  Feed(s, data) == Step(Success(Some(NewRequest(RequestWords(text)[0], RequestWords(text)[1], BlockHeaders(text),
                                                                Some(b[i + 4..i + 4 + n])))),
                                        Reset(b[i + 4 + n..])))
            && (n > 0 && |b| < i + 4 + n ==>
                  Feed(s, data) == Step(Success(None),
                                        ParserState(b[i + 4..], false, n, RequestWords(text)[0], RequestWords(text)[1], BlockHeaders(text))))
  {
    var b := s.buffer + data;
    var n := ContentLengthOf(BlockHeaders(text), 0);
    HeaderBlockReached(s, data, i, text);
    if n <= 0 {
      FramingWithoutBody(s, data, i, text);
    } else if i + 4 + n <= |b| {
      FramingWithBody(s, data, i, text);
    } else {
      FramingAwaitsBody(s, data, i, text);
    }
  }

  /** A decoded header block with a two-word request line is processed by
      `ParseHeaderBlock`. */
  lemma HeaderBlockReached(s: ParserState, data: seq<byte>, i: nat, text: string)
    requires Consistent(s) && s.isParsingHeaders
    requires |s.buffer + data| <= MaxBufferSize
    requires FindFirst(s.buffer + data, HeaderTerminator) == Some(i)
    requires Utf8.Decode((s.buffer + data)[..i + 4]) == Some(text)
    ensures i + 4 <= |s.buffer + data|
    ensures Feed(s, data) == ParseHeaderBlock(s.(buffer := s.buffer + data), text, i + 4)
  {
    var g := s.(buffer := s.buffer + data);
    assert Feed(s, data) == ParseBuffered(g);
  }

  lemma FramingWithoutBody(s: ParserState, data: seq<byte>, i: nat, text: string)
    requires Consistent(s) && s.isParsingHeaders
    requires i + 4 <= |s.buffer + data|
    requires |RequestWords(text)| >= 2
    requires ContentLengthOf(BlockHeaders(text), 0) <= 0
    ensures var b := s.buffer + data;
            ParseHeaderBlock(s.(buffer := b), text, i + 4)
            == Step(Success(Some(NewRequest(RequestWords(text)[0], RequestWords(text)[1], BlockHeaders(text), None))),
                    Reset(b[i + 4..]))
  {
  }

  lemma FramingWithBody(s: ParserState, data: seq<byte>, i: nat, text: string)
    requires Consistent(s) && s.isParsingHeaders
    requires |RequestWords(text)| >= 2
    requires var n := ContentLengthOf(BlockHeaders(text), 0);
             n > 0 && i + 4 + n <= |s.buffer + data|
    ensures var b := s.buffer + data;
            var n := ContentLengthOf(BlockHeaders(text), 0);
            ParseHeaderBlock(s.(buffer := b), text, i + 4)
            == Step(Success(Some(NewRequest(RequestWords(text)[0], RequestWords(text)[1], BlockHeaders(text),
                                            Some(b[i + 4..i + 4 + n])))),
                    Reset(b[i + 4 + n..]))
  {
    var b := s.buffer + data;
    var n := ContentLengthOf(BlockHeaders(text), 0);
    var rest := b[i + 4..];
    assert rest[..n] == b[i + 4..i + 4 + n];
    assert rest[n..] == b[i + 4 + n..];
  }

  lemma FramingAwaitsBody(s: ParserState, data: seq<byte>, i: nat, text: string)
    requires Consistent(s) && s.isParsingHeaders
    requires i + 4 <= |s.buffer + data|
    requires |RequestWords(text)| >= 2
    requires var n := ContentLengthOf(BlockHeaders(text), 0);
             n > 0 && |s.buffer + data| < i + 4 + n
    ensures var b := s.buffer + data;
            var n := ContentLengthOf(BlockHeaders(text), 0);
            ParseHeaderBlock(s.(buffer := b), text, i + 4)
            == Step(Success(None), ParserState(b[i + 4..], false, n, RequestWords(text)[0], RequestWords(text)[1], BlockHeaders(text)))
  {
  }

  /** In the body phase a call waits until the declared number of bytes is
      buffered, then emits exactly that many as the body with the stored
      request line and headers, keeping the rest. */
  lemma BodyPhaseFraming(s: ParserState, data: seq<byte>)
    requires Consistent(s) && !s.isParsingHeaders
    requires |s.buffer + data| <= MaxBufferSize
    ensures var b := s.buffer + data;
            && (|b| < s.contentLength ==> Feed(s, data) == Step(Success(None), s.(buffer := b)))
            && (|b| >= s.contentLength ==>
                  Feed(s, data) == Step(Success(Some(NewRequest(s.currentMethod, s.currentPath, s.currentHeaders, Some(b[..s.contentLength])))),
                                        Reset(b[s.contentLength..])))
  {
  }

  /** A Content-Length that `Int` does not accept, or none at all, counts as
      zero; a negative one is kept as it is. */
  lemma ContentLengthDefaults(headers: map<string, string>)
    ensures "Content-Length" !in headers ==> ContentLengthOf(headers, 0) == 0
    ensures "Content-Length" in headers && ParseInt(headers["Content-Length"]).None? ==> ContentLengthOf(headers, 0) == 0
    ensures "Content-Length" in headers ==> ContentLengthOf(headers, 0) == ParseInt(headers["Content-Length"]).GetOr(0)
  {
  }

  // ---------------------------------------------------------------------------
  // Header lines

  /** `Name: value` gives the trimmed name and the trimmed value, split at the
      first colon; later colons belong to the value. */
  lemma {:induction false} HeaderLineNameValue(name: string, rest: string)
    requires name != [] && ':' !in name && rest != []
    ensures ParseHeaderLine(name + [':'] + rest) == Some((Trim(name), Trim(rest)))
  {
    var line := name + [':'] + rest;
    RunLengthConcat(name, ':', rest);
    assert line[0] == name[0];
    assert line[..|name|] == name;
    assert line[|name| + 1..] == rest;
  }

  /** A line with nothing after its first colon is ignored, and so is a line
      without a colon. */
  lemma {:induction false} HeaderLineWithoutValue(name: string)
    requires ':' !in name
    ensures ParseHeaderLine(name + [':']) == None
    ensures ParseHeaderLine(name) == None
  {
    var line := name + [':'];
    if name == [] {
      assert line[0] == ':' && line[1..] == [];
      assert SplitOnceOmitting(line, ':') == [];
    } else {
      RunLengthConcat(name, ':', []);
      assert line == name + [':'] + [];
      assert line[0] == name[0];
      assert name[0] != ':' by { assert name[0] in name; }
    }
  }

  /** Leading colons are skipped before the name. */
  lemma HeaderLineLeadingColon(line: string)
    ensures ParseHeaderLine([':'] + line) == ParseHeaderLine(line)
  {
    var colonLine := [':'] + line;
    assert colonLine[0] == ':' && colonLine[1..] == line;
    assert SplitOnceOmitting(colonLine, ':') == SplitOnceOmitting(line, ':');
  }

  /** The key of a header line, if it has one. */
  predicate DefinesKey(line: string, key: string)
  {
    ParseHeaderLine(line).Some? && ParseHeaderLine(line).value.0 == key
  }

  /** One line added to a header map. */
  lemma AddedKey(earlier: map<string, string>, line: string, key: string)
    ensures key in AddHeaderLine(earlier, line) <==> key in earlier || DefinesKey(line, key)
  {
  }

  /** A key already in the map stays in it. */
  lemma KeptKey(earlier: map<string, string>, line: string, key: string)
    requires key in earlier
    ensures key in AddHeaderLine(earlier, line)
  {
  }

  /** Every line that defines a key puts it in the header map. */
  lemma {:induction false} DefinedKeyPresent(lines: seq<string>, i: nat, key: string)
    requires i < |lines| && DefinesKey(lines[i], key)
    ensures key in HeaderFields(lines)
    decreases |lines|
  {
    var init := lines[..|lines| - 1];
    var last := lines[|lines| - 1];
    var earlier := HeaderFields(init);
    assert HeaderFields(lines) == AddHeaderLine(earlier, last);
    if i < |init| {
      assert init[i] == lines[i];
      DefinedKeyPresent(init, i, key);
      KeptKey(earlier, last, key);
    } else {
      assert last == lines[i];
      AddedKey(earlier, last, key);
    }
  }

  /** Every key of the header map comes from a line that defines it. */
  lemma {:induction false} PresentKeyDefined(lines: seq<string>, key: string) returns (i: nat)
    requires key in HeaderFields(lines)
    ensures i < |lines| && DefinesKey(lines[i], key)
    decreases |lines|
  {
    var init := lines[..|lines| - 1];
    var last := lines[|lines| - 1];
    assert HeaderFields(lines) == AddHeaderLine(HeaderFields(init), last);
    AddedKey(HeaderFields(init), last, key);
    if DefinesKey(last, key) {
      i := |lines| - 1;
    } else {
      i := PresentKeyDefined(init, key);
      assert init[i] == lines[i];
    }
  }

  /** A key is in the header map exactly when some line defines it. */
  lemma HeaderFieldsKeys(lines: seq<string>, key: string)
    ensures key in HeaderFields(lines) <==> exists k :: 0 <= k < |lines| && DefinesKey(lines[k], key)
  {
    if key in HeaderFields(lines) {
      var i := PresentKeyDefined(lines, key);
    }
    forall k | 0 <= k < |lines| && DefinesKey(lines[k], key)
      ensures key in HeaderFields(lines)
    {
      DefinedKeyPresent(lines, k, key);
    }
  }

  /** The value comes from the last line that defines the key. */
  lemma {:induction false} HeaderFieldsLastWins(lines: seq<string>, i: nat, key: string)
    requires i < |lines| && DefinesKey(lines[i], key)
    requires forall k :: i < k < |lines| ==> !DefinesKey(lines[k], key)
    ensures key in HeaderFields(lines)
    ensures HeaderFields(lines)[key] == ParseHeaderLine(lines[i]).value.1
    decreases |lines|
  {
    var init := lines[..|lines| - 1];
    var last := lines[|lines| - 1];
    assert HeaderFields(lines) == AddHeaderLine(HeaderFields(init), last);
    if i < |lines| - 1 {
      assert init[i] == lines[i];
      assert forall k :: i < k < |init| ==> init[k] == lines[k];
      HeaderFieldsLastWins(init, i, key);
      assert !DefinesKey(last, key);
    }
  }

  // ---------------------------------------------------------------------------
  // Keep-alive

  /** A value whose characters lower-case to `keep-alive`. */
  lemma LowersToKeepAlive(v: string)
    requires |v| == 10
    requires forall k :: 0 <= k < 10 ==> AsciiLowerChar(v[k]) == "keep-alive"[k]
    ensures SupportsKeepAlive(map["Connection" := v])
  {
    assert AsciiLower(v) == "keep-alive";
  }

  /** The value is compared to `keep-alive` without regard to ASCII case. */
  lemma KeepAliveIgnoresCase()
    ensures SupportsKeepAlive(map["Connection" := "Keep-Alive"])
  {
    var mixed := "Keep-Alive";
    assert AsciiLowerChar(mixed[0]) == 'k';
    assert AsciiLowerChar(mixed[5]) == 'a';
    LowersToKeepAlive(mixed);
  }

  /** Any other value, a missing header and a differently cased key all turn
      keep-alive off. */
  lemma KeepAliveOff()
    ensures !SupportsKeepAlive(map["Connection" := "close"])
    ensures !SupportsKeepAlive(map["connection" := "keep-alive"])
    ensures !SupportsKeepAlive(map[])
  {
    assert |AsciiLower("close")| == 5;
    assert "connection"[0] != "Connection"[0];
  }
}
