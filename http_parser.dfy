/**
 * The per-connection request framer (`HttpParser`): bytes are appended to a
 * bounded buffer, the header block is cut at the first CRLF CRLF, and the
 * body is framed by `Content-Length` alone.  Each call emits at most one
 * request; bytes beyond it stay buffered for the next call.
 *
 * `Feed` is the specification of one `parse` call on the parser's state;
 * the class `HttpParser` performs the same call in place and is proved
 * against it.
 */
module Parsing {
  import opened Wrappers
  import opened Text
  import opened Numbers
  import Utf8
  import opened SocketErrors
  import opened Requests

  const MaxBufferSize: nat := 65536
  const HeaderTerminator: seq<byte> := [13, 10, 13, 10]
  const CRLF: string := "\r\n"

  const OverflowError := SocketCreationFailed("Buffer overflow")
  const EncodingError := SocketCreationFailed("Invalid header encoding")

  /** The parser's fields. */
  datatype ParserState = ParserState(
    buffer: seq<byte>,
    isParsingHeaders: bool,
    contentLength: int,
    currentMethod: string,
    currentPath: string,
    currentHeaders: map<string, string>)

  /** What one call returns (or throws) and the state it leaves. */
  datatype Step = Step(result: Result<Option<HttpRequest>, SocketError>, next: ParserState)

  /** The header phase holds nothing from a previous request; the body phase
      waits for a positive number of bytes. */
  predicate Consistent(s: ParserState) {
    && (s.isParsingHeaders ==>
          s.contentLength == 0 && s.currentMethod == [] && s.currentPath == [] && s.currentHeaders == map[])
    && (!s.isParsingHeaders ==> s.contentLength > 0)
  }

  /** A parser in the header phase with `buffer` still to be examined. */
  function Reset(buffer: seq<byte>): (s: ParserState)
    ensures Consistent(s) && s.isParsingHeaders && s.buffer == buffer
  {
    ParserState(buffer, true, 0, [], [], map[])
  }

  /** One header line: split at its first colon (empty pieces dropped), both
      pieces trimmed; a line that gives fewer than two pieces is ignored. */
  function ParseHeaderLine(line: string): Option<(string, string)>
  {
    if line == [] then None
    else
      var pieces := SplitOnceOmitting(line, ':');
      if |pieces| == 2 then Some((Trim(pieces[0]), Trim(pieces[1]))) else None
  }

  /** The header map built from the lines in order; a later line overwrites
      an earlier one with the same key. */
  function HeaderFields(lines: seq<string>): map<string, string>
    decreases |lines|
  {
    if lines == [] then map[]
    else AddHeaderLine(HeaderFields(lines[..|lines| - 1]), lines[|lines| - 1])
  }

  /** The map after one more header line. */
  function AddHeaderLine(earlier: map<string, string>, line: string): map<string, string>
  {
    match ParseHeaderLine(line)
    case None => earlier
    case Some((key, value)) => earlier[key := value]
  }

  /** `Int(headers["Content-Length"])` when both are present, else `current`. */
  function ContentLengthOf(headers: map<string, string>, current: int): int
  {
    if "Content-Length" in headers && ParseInt(headers["Content-Length"]).Some?
    then ParseInt(headers["Content-Length"]).value
    else current
  }

  /** `parse(data)`. */
  function Feed(s: ParserState, data: seq<byte>): Step
    requires Consistent(s)
  {
    var grown := s.(buffer := s.buffer + data);
    if |grown.buffer| > MaxBufferSize then Step(Failure(OverflowError), grown)
    else ParseBuffered(grown)
  }

  /** `parseRequest()`. */
  function ParseBuffered(s: ParserState): Step
    requires Consistent(s)
  {
    if s.isParsingHeaders then
      match FindFirst(s.buffer, HeaderTerminator)
      case None => Step(Success(None), s)
      case Some(i) =>
        match Utf8.Decode(s.buffer[..i + |HeaderTerminator|])
        case None => Step(Failure(EncodingError), s)
        case Some(text) => ParseHeaderBlock(s, text, i + |HeaderTerminator|)
    else if |s.buffer| >= s.contentLength then
      var request := NewRequest(s.currentMethod, s.currentPath, s.currentHeaders, Some(s.buffer[..s.contentLength]));
      Step(Success(Some(request)), Reset(s.buffer[s.contentLength..]))
    else
      Step(Success(None), s)
  }

  /** The header block `text`, which occupies the first `end` buffered bytes. */
  function ParseHeaderBlock(s: ParserState, text: string, end: nat): Step
    requires Consistent(s) && s.isParsingHeaders && end <= |s.buffer|
  {
    var lines := Split(text, CRLF);
    var requestLine := Split(lines[0], " ");
    if |requestLine| < 2 then Step(Success(None), s)
    else
      var headers := HeaderFields(lines[1..]);
      var length := ContentLengthOf(headers, s.contentLength);
      var rest := s.buffer[end..];
      if length == 0 || |rest| >= length then
        var body := if length > 0 then Some(rest[..length]) else None;
        var left := if length > 0 then rest[length..] else rest;
        Step(Success(Some(NewRequest(requestLine[0], requestLine[1], headers, body))), Reset(left))
      else
        Step(Success(None), ParserState(rest, false, length, requestLine[0], requestLine[1], headers))
  }

  /** `supportsKeepAlive`: the exact key `Connection`, compared to
      `keep-alive` after lower-casing. */
  function SupportsKeepAlive(headers: map<string, string>): bool
  {
    "Connection" in headers && AsciiLower(headers["Connection"]) == "keep-alive"
  }

  class HttpParser {
    var buffer: seq<byte>
    var isParsingHeaders: bool
    var contentLength: int
    var currentMethod: string
    var currentPath: string
    var currentHeaders: map<string, string>

    function State(): ParserState
      reads this
    {
      ParserState(buffer, isParsingHeaders, contentLength, currentMethod, currentPath, currentHeaders)
    }

    ghost predicate Valid()
      reads this
    {
      Consistent(State())
    }

    constructor ()
      ensures Valid() && State() == Reset([])
    {
      buffer := [];
      isParsingHeaders := true;
      contentLength := 0;
      currentMethod := [];
      currentPath := [];
      currentHeaders := map[];
    }

    method Parse(data: seq<byte>) returns (r: Result<Option<HttpRequest>, SocketError>)
      requires Valid()
      modifies this
      ensures Valid()
      ensures Step(r, State()) == Feed(old(State()), data)
    {
      buffer := buffer + data;
      if |buffer| > MaxBufferSize {
        return Failure(OverflowError);
      }
      r := ParseRequest();
    }

    method ParseRequest() returns (r: Result<Option<HttpRequest>, SocketError>)
      requires Valid()
      modifies this
      ensures Valid()
      ensures Step(r, State()) == ParseBuffered(old(State()))
    {
      if isParsingHeaders {
        r := ParseHeaderPhase();
      } else if |buffer| >= contentLength {
        var request := NewRequest(currentMethod, currentPath, currentHeaders, Some(buffer[..contentLength]));
        buffer := buffer[contentLength..];
        ResetRequest();
        r := Success(Some(request));
      } else {
        r := Success(None);
      }
    }

    /** The header branch of `parseRequest()`. */
    method ParseHeaderPhase() returns (r: Result<Option<HttpRequest>, SocketError>)
      requires Valid() && isParsingHeaders
      modifies this
      ensures Valid()
      ensures Step(r, State()) == ParseBuffered(old(State()))
    {
      var found := FindFirst(buffer, HeaderTerminator);
      if found.None? {
        return Success(None);
      }
      var end := found.value + |HeaderTerminator|;
      var decoded := Utf8.Decode(buffer[..end]);
      if decoded.None? {
        return Failure(EncodingError);
      }
      r := ParseHeaderText(decoded.value, end);
    }

    /** The decoded header block, which occupies the first `end` bytes. */
    method ParseHeaderText(text: string, end: nat) returns (r: Result<Option<HttpRequest>, SocketError>)
      requires Valid() && isParsingHeaders && end <= |buffer|
      modifies this
      ensures Valid()
      ensures Step(r, State()) == ParseHeaderBlock(old(State()), text, end)
    {
      var headerLines := Split(text, CRLF);
      var requestComponents := Split(headerLines[0], " ");
      if |requestComponents| < 2 {
        return Success(None);
      }
      currentMethod := requestComponents[0];
      currentPath := requestComponents[1];
      currentHeaders := ReadHeaderFields(headerLines);
      if "Content-Length" in currentHeaders {
        var length := ParseInt(currentHeaders["Content-Length"]);
        if length.Some? {
          contentLength := length.value;
        }
      }
      assert contentLength == ContentLengthOf(currentHeaders, old(contentLength));
      isParsingHeaders := false;
      buffer := buffer[end..];
      if contentLength == 0 || |buffer| >= contentLength {
        var body := if contentLength > 0 then Some(buffer[..contentLength]) else None;
        if contentLength > 0 {
          buffer := buffer[contentLength..];
        }
        var request := NewRequest(currentMethod, currentPath, currentHeaders, body);
        ResetRequest();
        return Success(Some(request));
      }
      return Success(None);
    }

    /** Clears the per-request fields and returns to the header phase. */
    method ResetRequest()
      modifies this
      ensures State() == Reset(old(buffer))
    {
      isParsingHeaders := true;
      contentLength := 0;
      currentMethod := [];
      currentPath := [];
      currentHeaders := map[];
    }
  }

  /** The header loop of `parseRequest()`: every line after the request
      line, in order, through `ParseHeaderLine`. */
  method ReadHeaderFields(headerLines: seq<string>) returns (fields: map<string, string>)
    requires |headerLines| >= 1
    ensures fields == HeaderFields(headerLines[1..])
  {
    fields := map[];
    var i := 1;
    while i < |headerLines|
      invariant 1 <= i <= |headerLines|
      invariant fields == HeaderFields(headerLines[1..i])
    {
      var line := headerLines[i];
      assert headerLines[1..i + 1][..i - 1] == headerLines[1..i];
      if line != [] {
        var headerComponents := SplitOnceOmitting(line, ':');
        if |headerComponents| == 2 {
          var key := Trim(headerComponents[0]);
          var value := Trim(headerComponents[1]);
          fields := fields[key := value];
        }
      }
      i := i + 1;
    }
    assert headerLines[1..i] == headerLines[1..];
  }
}
