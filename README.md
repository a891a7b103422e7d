# StarPlayrXServe in Dafny

A model of the embedded HTTP/1.1 server library StarPlayrXServe, with proofs about it, and of the playlist route the radio app registers on it.

The model covers these parts:

- **Request framer** (`HttpParser`):
  - a per-connection object that appends received bytes to a buffer capped at 65536 bytes;
  - it cuts the header block at the first CRLF CRLF and decodes it as UTF-8;
  - it parses the request line and the header lines;
  - it frames the body by `Content-Length` alone;
  - it emits at most one request per call and keeps any bytes after it for the next request.
- **Response model**:
  - `HttpRespBody`: a body kind with its length, content type and writer;
  - `HttpResponse`: injects `Content-Type` only when the caller did not set it;
  - the 200, 404 and 500 factories.
- **Router** (`HttpRouter`):
  - an ordered table of (method, path, dispatch) entries;
  - the first exact match wins, then the first pattern whose `:name` segments bind parts of the path;
  - a pattern's bindings overwrite the route's default parameters;
  - `MethodRoute` views the table under one method, and `HttpServer` consults the table in its `dispatch`.
- **Connection-level server** (`HttpServerIO`):
  - the lifecycle state stored as an `Int32` raw value;
  - the effects of `start` and `stop` on the server's fields;
  - the per-chunk decision on a connection: parse, dispatch, answer, respond, then keep or cancel;
  - the exact response header block.
- **Playlist route** (`playlistRoute.swift`):
  - the channel-key extraction;
  - the four-step playlist rewrite;
  - the 200 or 404 choice;
  - the bookkeeping of the token reset and refresh.

Each stateful source object is a `class` whose fields its methods update: `HttpParser`, `HttpRouter`, `MethodRoute`, `HttpServerIO`, `HttpServer` and the playlist route's globals (`TokenState`). Each method is proved against a function on the class's state:

- `Parsing.Feed` specifies `parse`;
- `Routing.Resolve` and `Routing.MatchParams` specify `route` and `matchRoute`;
- `ServerIO.HeaderBlock` and `ServerIO.Transmit` specify `respond`.

The lemmas are about those functions. The pure parts are datatypes and functions.

External effects are handled this way:

- The transport is reduced to `ServerIO.Connection`, which records the byte chunks sent and whether the connection was cancelled.
- Whether the system accepts a port and whether it creates a listener are parameters of `Start`.
- JSON serialization is a parameter `encode: JsonValue -> Option<seq<byte>>`; `None` means serialization throws.
- The playlist route's channel table, current time and fetched playlist text are parameters. The `Session` calls the route would make are returned as values.

Modules, one per file:

- `Wrappers`, `Text` (Swift's `components(separatedBy:)`, `split(separator:)`, `replacingOccurrences`, trimming, `hasSuffix`), `Numbers` (`Int(String)` and integer printing), `Utf8`;
- `SocketErrors`, `Requests`, `Bodies`, `Responses`;
- `Parsing` and `ParserProperties`, `Routing` and `RouterProperties`, `MethodRoutes`;
- `ServerIO` and `ServerIOProperties`, `Servers`, `Playlists`.

A request for a streaming path such as `GET /nosuch.m3u8` with `Connection: close` against an empty router is answered 404 and the connection is **kept open**, because `HttpServerIO.swift` keeps every stream request alive whatever the routing outcome. `ServerIOProperties.UnroutedStreamStaysOpen` states this case.

## Model

| member | source | states |
|---|---|---|
| Requests.NewRequest | StarPlayrXServe/Sources/StarPlayrXServe/HttpRequest.swift:10-22 | a new request carries the given method, path, headers and body, and no params |
| Parsing.Reset | StarPlayrXServe/Sources/StarPlayrXServe/HttpParser.swift:108-112 | after a request, the parser is back in the header phase with no stored method, path, headers or length; the remaining bytes are kept |
| Parsing.HttpParser.constructor | StarPlayrXServe/Sources/StarPlayrXServe/HttpParser.swift:11-19 | a new parser has an empty buffer and is in the header phase |
| Parsing.Feed | StarPlayrXServe/Sources/StarPlayrXServe/HttpParser.swift:21-29 | `parse`: the chunk is appended; a buffer over 65536 bytes fails with the overflow error and keeps the grown buffer, otherwise the buffer is examined. OverflowIff, FeedKeepsSuffix and EmitResets state its properties, and `HttpParser.Parse` is proved to compute it |
| Parsing.ParseBuffered | StarPlayrXServe/Sources/StarPlayrXServe/HttpParser.swift:31-148 | `parseRequest`: in the header phase it waits for CRLF CRLF, fails on a block that is not UTF-8 and otherwise reads the block; in the body phase it emits once `contentLength` bytes are buffered. WaitsForTerminator, InvalidEncodingPersists and BodyPhaseFraming state these cases, and `HttpParser.ParseRequest` is proved to compute it |
| Parsing.ParseHeaderBlock | StarPlayrXServe/Sources/StarPlayrXServe/HttpParser.swift:49-118 | the block is cut at CRLF and its first line at spaces; fewer than two words leave the state as it was; otherwise the headers and Content-Length are read, and the request is emitted or the body phase entered. IncompleteRequestLineStalls, HeaderPhaseFraming and BlockKeepsSuffix state its outcomes |
| Parsing.HeaderFields | StarPlayrXServe/Sources/StarPlayrXServe/HttpParser.swift:63-78 | the header map of the lines after the request line, a later line overwriting an earlier one. HeaderFieldsKeys and HeaderFieldsLastWins state which keys it holds and which value wins, and `ReadHeaderFields` is the loop proved to compute it |
| Parsing.ParseHeaderLine | StarPlayrXServe/Sources/StarPlayrXServe/HttpParser.swift:68-76 | an empty line is skipped; otherwise the line is split at its first colon with empty pieces dropped, and two pieces give the trimmed key and value. HeaderLineNameValue, HeaderLineWithoutValue and HeaderLineLeadingColon state its cases |
| Parsing.ContentLengthOf | StarPlayrXServe/Sources/StarPlayrXServe/HttpParser.swift:80-83 | `Content-Length` read with `Int`; the current length is kept when the key is missing or its text is not a number. ContentLengthDefaults states it |
| Parsing.SupportsKeepAlive | StarPlayrXServe/Sources/StarPlayrXServe/HttpParser.swift:151-156 | the exact key `Connection`, lower-cased and compared with `keep-alive`. LowersToKeepAlive, KeepAliveIgnoresCase and KeepAliveOff state its cases |
| Parsing.HttpParser.Parse | StarPlayrXServe/Sources/StarPlayrXServe/HttpParser.swift:21-29 | one `parse` call changes the fields and result exactly as `Feed` prescribes, and keeps the phase invariant |
| Parsing.HttpParser.ParseRequest | StarPlayrXServe/Sources/StarPlayrXServe/HttpParser.swift:31-149 | `parseRequest` on the grown buffer, by phase: header search, or body completion |
| Parsing.HttpParser.ParseHeaderPhase | StarPlayrXServe/Sources/StarPlayrXServe/HttpParser.swift:37-47 | no terminator: nothing emitted; undecodable header block: the encoding error; otherwise the header block is processed |
| Parsing.HttpParser.ParseHeaderText | StarPlayrXServe/Sources/StarPlayrXServe/HttpParser.swift:49-118 | request line, header loop, Content-Length and the emit-or-wait choice, as `ParseHeaderBlock` prescribes |
| Parsing.HttpParser.ResetRequest | StarPlayrXServe/Sources/StarPlayrXServe/HttpParser.swift:133-141 | the per-request fields are cleared and the buffer is kept |
| Parsing.ReadHeaderFields | StarPlayrXServe/Sources/StarPlayrXServe/HttpParser.swift:66-78 | the header loop over lines 1.. builds exactly `HeaderFields` of those lines |
| ParserProperties.OverflowIff | StarPlayrXServe/Sources/StarPlayrXServe/HttpParser.swift:21-26 | the call throws "Buffer overflow" if and only if the grown buffer exceeds 65536 bytes; the chunk then stays appended |
| ParserProperties.FeedKeepsSuffix | StarPlayrXServe/Sources/StarPlayrXServe/HttpParser.swift:86-98 | every call leaves a consistent state whose buffer is a suffix of old buffer + chunk: bytes leave only from the front |
| ParserProperties.BlockKeepsSuffix | StarPlayrXServe/Sources/StarPlayrXServe/HttpParser.swift:88-118 | processing a header block with a two-word request line leaves a consistent state holding a suffix of the buffer, whether it emits or waits for the body |
| ParserProperties.EmitResets | StarPlayrXServe/Sources/StarPlayrXServe/HttpParser.swift:95-114 | whenever a request is emitted, the parser is reset to the header phase |
| ParserProperties.WaitsForTerminator | StarPlayrXServe/Sources/StarPlayrXServe/HttpParser.swift:37-41 | without CRLF CRLF in the buffer nothing is emitted, and only the buffer changes |
| ParserProperties.IncompleteRequestLineStalls | StarPlayrXServe/Sources/StarPlayrXServe/HttpParser.swift:54-58 | if the request line has fewer than two words, every further chunk that fits is only buffered, and the condition persists |
| ParserProperties.InvalidEncodingPersists | StarPlayrXServe/Sources/StarPlayrXServe/HttpParser.swift:21-47 | once the header block in the buffer is not UTF-8, each call appends its chunk and throws: "Invalid header encoding" while the buffer stays within 65536 bytes, "Buffer overflow" once it grows past; the undecodable block is still there afterwards, so this holds for every later call |
| ParserProperties.HeaderPhaseFraming | StarPlayrXServe/Sources/StarPlayrXServe/HttpParser.swift:80-118 | the body is exactly the Content-Length bytes after the terminator; a length <= 0 means no body; a short buffer enters the body phase |
| ParserProperties.BodyPhaseFraming | StarPlayrXServe/Sources/StarPlayrXServe/HttpParser.swift:119-148 | the body phase waits for the declared bytes, then emits exactly that many and keeps the rest |
| ParserProperties.ContentLengthDefaults | StarPlayrXServe/Sources/StarPlayrXServe/HttpParser.swift:80-83 | a missing Content-Length or one `Int` rejects counts as 0; otherwise the parsed value is used, negative or not |
| ParserProperties.HeaderLineNameValue | StarPlayrXServe/Sources/StarPlayrXServe/HttpParser.swift:72-76 | `name: value` splits at the first colon, both sides are trimmed, and later colons stay in the value |
| ParserProperties.HeaderLineWithoutValue | StarPlayrXServe/Sources/StarPlayrXServe/HttpParser.swift:67-73 | a line without a colon, or with nothing after it, is ignored |
| ParserProperties.HeaderLineLeadingColon | StarPlayrXServe/Sources/StarPlayrXServe/HttpParser.swift:72 | leading colons are skipped before the name, as `split` omits empty pieces |
| ParserProperties.AddedKey | StarPlayrXServe/Sources/StarPlayrXServe/HttpParser.swift:72-77 | one header line adds its key and nothing else |
| ParserProperties.DefinedKeyPresent | StarPlayrXServe/Sources/StarPlayrXServe/HttpParser.swift:66-78 | every line that defines a key puts it in the map |
| ParserProperties.PresentKeyDefined | StarPlayrXServe/Sources/StarPlayrXServe/HttpParser.swift:66-78 | every key in the map comes from some header line |
| ParserProperties.HeaderFieldsKeys | StarPlayrXServe/Sources/StarPlayrXServe/HttpParser.swift:66-78 | a key is present if and only if some line defines it |
| ParserProperties.HeaderFieldsLastWins | StarPlayrXServe/Sources/StarPlayrXServe/HttpParser.swift:76 | a repeated header takes the value of its last line |
| ParserProperties.LowersToKeepAlive | StarPlayrXServe/Sources/StarPlayrXServe/HttpParser.swift:151-156 | any `Connection` value that lower-cases to keep-alive enables keep-alive |
| ParserProperties.KeepAliveIgnoresCase | StarPlayrXServe/Sources/StarPlayrXServe/HttpParser.swift:152-155 | an instance of LowersToKeepAlive: the mixed-case value "Keep-Alive" enables keep-alive, as the lower-cased comparison promises |
| ParserProperties.KeepAliveOff | StarPlayrXServe/Sources/StarPlayrXServe/HttpParser.swift:151-156 | "close", a lower-case key and a missing header all disable keep-alive |
| Numbers.ParseInt | StarPlayrXServe/Sources/StarPlayrXServe/HttpParser.swift:81 | `Int(String)`: it succeeds only on an optional sign followed by digits, with a value in the 64-bit range. ParseDigits, ParseMinusDigits, ParseIntRejects and ParseIntToString state its cases |
| Numbers.ParseIntToString | StarPlayrXServe/Sources/StarPlayrXServe/HttpParser.swift:81 | `Int` reads back every printed 64-bit integer |
| Numbers.ParseDigits | StarPlayrXServe/Sources/StarPlayrXServe/HttpParser.swift:81 | a non-empty run of digits in the 64-bit range reads as its decimal value |
| Numbers.ParseMinusDigits | StarPlayrXServe/Sources/StarPlayrXServe/HttpParser.swift:81 | a minus sign followed by such a run reads as the negated value |
| Numbers.ParseIntRejects | StarPlayrXServe/Sources/StarPlayrXServe/HttpParser.swift:81 | `Int` rejects the empty string, a lone sign, and anything containing a space |
| Numbers.NatToStringDigits | StarPlayrXServe/Sources/StarPlayrXServe/HttpServerIO.swift:287-290 | a printed status code or length is a non-empty digit string denoting that number |
| Utf8.DecodeEncode | StarPlayrXServe/Sources/StarPlayrXServe/HttpParser.swift:45 | decoding the UTF-8 of any string gives back that string |
| Utf8.EncodeDecode | StarPlayrXServe/Sources/StarPlayrXServe/HttpParser.swift:45 | a decodable header block is the UTF-8 of its decoded text |
| Utf8.EncodeAscii | StarPlayrXServe/Sources/StarPlayrXServe/HttpServerIO.swift:317 | an ASCII header is sent one byte per character |
| Text.SplitPiecesFree | StarPlayrXServe/Sources/StarPlayrXServe/HttpParser.swift:49 | `components(separatedBy:)` cuts at every occurrence: no piece still contains the separator |
| Text.JoinSplit | StarPlayrXServe/Sources/StarPlayrXServe/HttpParser.swift:49 | `components(separatedBy:)` keeps every character: joining the pieces restores the text |
| Text.TrimSpaces | StarPlayrXServe/Sources/StarPlayrXServe/HttpParser.swift:74-75 | trimming removes exactly the leading and trailing spaces and tabs |
| Text.AsciiLower | StarPlayrXServe/Sources/StarPlayrXServe/HttpParser.swift:152 | lower-casing maps each character and keeps the length |
| Bodies.JsonOf | StarPlayrXServe/Sources/StarPlayrXServe/HttpRespBody.swift:11 | the JSON default content type is application/json |
| Bodies.PingOf | StarPlayrXServe/Sources/StarPlayrXServe/HttpRespBody.swift:12 | the text default content type is text/plain |
| Bodies.DataOf | StarPlayrXServe/Sources/StarPlayrXServe/HttpRespBody.swift:13 | the data body has no default content type |
| Bodies.BytsOf | StarPlayrXServe/Sources/StarPlayrXServe/HttpRespBody.swift:14 | the byte-array body has no default content type |
| Bodies.ContentType | StarPlayrXServe/Sources/StarPlayrXServe/HttpRespBody.swift:35-48 | every case but `empty` reports its own content type; `empty` reports none |
| Bodies.MakeString | StarPlayrXServe/Sources/StarPlayrXServe/HttpRespBody.swift:75-77 | `makeString` gives a text body with the given content type |
| Bodies.MakeJson | StarPlayrXServe/Sources/StarPlayrXServe/HttpRespBody.swift:79-81 | `makeJson` gives a JSON body with content type application/json |
| Bodies.Length | StarPlayrXServe/Sources/StarPlayrXServe/HttpRespBody.swift:17-33 | `length`: the byte count of each body case, 0 for the empty body and for a JSON value that does not serialise. LengthMatchesWriter ties it to the bytes the writer sends |
| Bodies.Writer | StarPlayrXServe/Sources/StarPlayrXServe/HttpRespBody.swift:50-72 | `write`: the bytes each case writes, a throw for a JSON value that does not serialise, and no writer for the empty body. EmptyBody and LengthMatchesWriter state it |
| Bodies.EmptyBody | StarPlayrXServe/Sources/StarPlayrXServe/HttpRespBody.swift:15-72 | only the empty body has no writer, and it has length 0 |
| Bodies.LengthMatchesWriter | StarPlayrXServe/Sources/StarPlayrXServe/HttpRespBody.swift:17-72 | the advertised `length` equals the number of bytes the writer writes; a writer that throws belongs to a JSON body whose length is 0 |
| Bodies.AsciiPingLength | StarPlayrXServe/Sources/StarPlayrXServe/HttpRespBody.swift:24-25 | an ASCII text body's length is its character count |
| Responses.MakeResponse | StarPlayrXServe/Sources/StarPlayrXServe/HttpResponse.swift:16-28 | the body's content type is added only when the caller set none; other headers are unchanged |
| Responses.MakeResponseStable | StarPlayrXServe/Sources/StarPlayrXServe/HttpResponse.swift:20-24 | rebuilding a response from its own headers changes nothing |
| Responses.Ok | StarPlayrXServe/Sources/StarPlayrXServe/HttpResponse.swift:38-40 | 200 OK, with the body's content type as the only header |
| Responses.NotFound | StarPlayrXServe/Sources/StarPlayrXServe/HttpResponse.swift:42-44 | 404 Not Found with the given body, whose content type, if any, is the only header; without a body, it has an empty body and no headers |
| Responses.InternalServerError | StarPlayrXServe/Sources/StarPlayrXServe/HttpResponse.swift:46-48 | 500 Internal Server Error with the given body, whose content type, if any, is the only header; without a body, it has an empty body and no headers |
| Routing.Segments | StarPlayrXServe/Sources/StarPlayrXServe/HttpRouter.swift:43-44 | splitting on "/" gives at least one segment |
| Routing.RouteLines | StarPlayrXServe/Sources/StarPlayrXServe/HttpRouter.swift:73-75 | one "METHOD PATH" line per entry, in registration order |
| Routing.NotFoundDispatch | StarPlayrXServe/Sources/StarPlayrXServe/MethodRoute.swift:25 | the fallback has no default params, and its handler answers every request 404 without a body |
| Routing.BindMismatchPersists | StarPlayrXServe/Sources/StarPlayrXServe/HttpRouter.swift:60-62 | once a literal segment differs, there is no match, however many segments follow |
| Routing.BindSegments | StarPlayrXServe/Sources/StarPlayrXServe/HttpRouter.swift:50-66 | the segment loop of `matchRoute`: a `:name` segment binds name, a later one overwriting, and a differing literal fails. BindSomeIff, BindKeyPresent, BindKeyDefined, BindValueLast and BindMismatchPersists state it |
| Routing.MatchParams | StarPlayrXServe/Sources/StarPlayrXServe/HttpRouter.swift:42-67 | `matchRoute`: empty when the segment counts differ or a literal differs, else the bindings. MatchParamsKeys and MatchParamsValue state its keys and values, and `HttpRouter.MatchRoute` is proved to compute it |
| Routing.ExactMatch | StarPlayrXServe/Sources/StarPlayrXServe/HttpRouter.swift:19-23 | the first loop of `route`: the first entry with the same method and path. ExactMatchFirst and ExactMatchNone state it |
| Routing.PatternMatch | StarPlayrXServe/Sources/StarPlayrXServe/HttpRouter.swift:26-37 | the second loop: the first entry of the same method whose pattern binds something, the bindings laid over its defaults. PatternMatchFirst and PatternMatchNone state it |
| Routing.Resolve | StarPlayrXServe/Sources/StarPlayrXServe/HttpRouter.swift:17-40 | `route`: the exact pass first, then the pattern pass, else nil. ResolveNoneIff, ResolvePrefersExact and ResolveByPattern state it, and `HttpRouter.Route` is proved to compute it |
| Routing.ExactMatchFirst | StarPlayrXServe/Sources/StarPlayrXServe/HttpRouter.swift:19-23 | the exact-match loop returns the first exact entry |
| Routing.ExactMatchNone | StarPlayrXServe/Sources/StarPlayrXServe/HttpRouter.swift:19-23 | the exact-match loop finds nothing if no entry is exact |
| Routing.PatternMatchFirst | StarPlayrXServe/Sources/StarPlayrXServe/HttpRouter.swift:26-36 | the pattern loop returns the first pattern entry, with its bindings laid over its defaults |
| Routing.PatternMatchNone | StarPlayrXServe/Sources/StarPlayrXServe/HttpRouter.swift:26-39 | the pattern loop finds nothing if no pattern matches |
| Routing.HttpRouter.constructor | StarPlayrXServe/Sources/StarPlayrXServe/HttpRouter.swift:13-15 | a new router has an empty table |
| Routing.HttpRouter.Register | StarPlayrXServe/Sources/StarPlayrXServe/HttpRouter.swift:69-71 | `register` appends one entry to the table |
| Routing.HttpRouter.Routes | StarPlayrXServe/Sources/StarPlayrXServe/HttpRouter.swift:73-75 | `routes` has one line per table entry, in registration order, each the entry's method, a space and its path |
| Routing.HttpRouter.Route | StarPlayrXServe/Sources/StarPlayrXServe/HttpRouter.swift:17-40 | the two loops of `route` compute `Resolve`: exact first, then pattern, else nil |
| Routing.HttpRouter.MatchRoute | StarPlayrXServe/Sources/StarPlayrXServe/HttpRouter.swift:42-67 | the segment loop of `matchRoute` computes `MatchParams` |
| Routing.MergeParams | StarPlayrXServe/Sources/StarPlayrXServe/HttpRouter.swift:29-34 | whatever the visiting order, the merged map is the defaults overwritten by the bindings |
| RouterProperties.BindSomeIff | StarPlayrXServe/Sources/StarPlayrXServe/HttpRouter.swift:52-64 | the segments match if and only if every literal segment agrees |
| RouterProperties.BindKeyPresent | StarPlayrXServe/Sources/StarPlayrXServe/HttpRouter.swift:56-59 | every `:name` segment binds its name |
| RouterProperties.BindKeyDefined | StarPlayrXServe/Sources/StarPlayrXServe/HttpRouter.swift:56-59 | every bound name comes from a `:name` segment |
| RouterProperties.BindValueLast | StarPlayrXServe/Sources/StarPlayrXServe/HttpRouter.swift:59 | a name bound twice takes the path segment under its last occurrence |
| RouterProperties.MatchParamsKeys | StarPlayrXServe/Sources/StarPlayrXServe/HttpRouter.swift:42-67 | a name is bound if and only if the counts agree, the literals agree, and some segment names it |
| RouterProperties.MatchParamsValue | StarPlayrXServe/Sources/StarPlayrXServe/HttpRouter.swift:56-59 | a bound name's value is the path segment under its last parameter segment |
| RouterProperties.LiteralPatternBindsNothing | StarPlayrXServe/Sources/StarPlayrXServe/HttpRouter.swift:26-28 | a pattern without parameters binds nothing, so only the exact loop can select it |
| RouterProperties.SegmentsCons | StarPlayrXServe/Sources/StarPlayrXServe/HttpRouter.swift:43-44 | a first piece without "/" is the first segment |
| RouterProperties.ChannelSegments | StarPlayrXServe/Sources/StarPlayrXServe/HttpRouter.swift:43-44 | `/api/v3/m3u/x` has the segments "", api, v3, m3u, x |
| RouterProperties.BindLiterals | StarPlayrXServe/Sources/StarPlayrXServe/HttpRouter.swift:60-64 | identical literal segments match and bind nothing |
| RouterProperties.ChannelRouteBinds | StarPlayrXServe/Sources/StarPlayrXServe/HttpRouter.swift:42-67 | `/api/v3/m3u/:channelid` against `/api/v3/m3u/<id>` binds exactly channelid = id |
| RouterProperties.ResolveNoneIff | StarPlayrXServe/Sources/StarPlayrXServe/HttpRouter.swift:17-40 | `route` returns nil if and only if no entry is exact and no pattern matches |
| RouterProperties.ResolvePrefersExact | StarPlayrXServe/Sources/StarPlayrXServe/HttpRouter.swift:17-23 | the first exact entry wins, even over an earlier matching pattern |
| RouterProperties.ResolveByPattern | StarPlayrXServe/Sources/StarPlayrXServe/HttpRouter.swift:26-36 | without an exact entry, the first matching pattern wins, with merged params |
| RouterProperties.ExactMatchAppend | StarPlayrXServe/Sources/StarPlayrXServe/HttpRouter.swift:19-23 | an appended entry is reached by the exact loop only when no earlier entry was exact |
| RouterProperties.PatternMatchAppend | StarPlayrXServe/Sources/StarPlayrXServe/HttpRouter.swift:26-37 | an appended entry is reached by the pattern loop only when no earlier pattern matched |
| RouterProperties.ResolveAfterRegister | StarPlayrXServe/Sources/StarPlayrXServe/HttpRouter.swift:69-71 | a registration changes no lookup that already had an exact answer; it adds an exact answer when there was none; a non-exact entry leaves answered lookups alone |
| RouterProperties.RouteLinesAppend | StarPlayrXServe/Sources/StarPlayrXServe/HttpRouter.swift:73-75 | after a registration, `routes` has one more line at the end |
| MethodRoutes.MethodRoute.constructor | StarPlayrXServe/Sources/StarPlayrXServe/MethodRoute.swift:14-17 | a view keeps its method and the shared router |
| MethodRoutes.MethodRoute.Register | StarPlayrXServe/Sources/StarPlayrXServe/MethodRoute.swift:19-21 | `register` appends an entry under the view's method |
| MethodRoutes.MethodRoute.Get | StarPlayrXServe/Sources/StarPlayrXServe/MethodRoute.swift:24-25 | the getter returns the router's answer, or the 404 fallback |
| MethodRoutes.MethodRoute.Set | StarPlayrXServe/Sources/StarPlayrXServe/MethodRoute.swift:27-29 | the setter appends and never replaces |
| MethodRoutes.SetTwiceKeepsFirst | StarPlayrXServe/Sources/StarPlayrXServe/MethodRoute.swift:27-29 | setting a path twice: the first handler keeps answering |
| MethodRoutes.OtherMethodIgnored | StarPlayrXServe/Sources/StarPlayrXServe/MethodRoute.swift:19-25 | an entry under another method changes no lookup |
| Servers.RouterDispatch | StarPlayrXServe/Sources/StarPlayrXServe/HttpServer.swift:27-35 | `dispatch` returns the router's answer, or empty params with a 404 handler |
| Servers.HttpServer.constructor | StarPlayrXServe/Sources/StarPlayrXServe/HttpServer.swift:12-21 | a new server is stopped, and its get and post views share one empty router |
| Servers.HttpServer.Routes | StarPlayrXServe/Sources/StarPlayrXServe/HttpServer.swift:23-25 | `routes` has one `METHOD path` line per entry of the shared router, in registration order |
| Servers.HttpServer.Dispatch | StarPlayrXServe/Sources/StarPlayrXServe/HttpServer.swift:27-35 | the override consults the shared table |
| Servers.EmptyTableIsDefault | StarPlayrXServe/Sources/StarPlayrXServe/HttpServer.swift:27-35 | with no routes, the override behaves like the base class's dispatch |
| ServerIO.RawValue | StarPlayrXServe/Sources/StarPlayrXServe/HttpServerIO.swift:29-34 | the raw values are 0 to 3, in declaration order |
| ServerIO.StateOf | StarPlayrXServe/Sources/StarPlayrXServe/HttpServerIO.swift:38-41 | the `state` getter: the stored raw value read back as a state, `.stopped` for a value outside the enum. StateOfRawValue states the round trip |
| ServerIO.StateOfRawValue | StarPlayrXServe/Sources/StarPlayrXServe/HttpServerIO.swift:36-45 | a stored state reads back as itself; an out-of-range raw value reads as stopped |
| ServerIO.HttpServerIO.constructor | StarPlayrXServe/Sources/StarPlayrXServe/HttpServerIO.swift:17-22 | the defaults are no listener, no connections, and the raw value of stopped |
| ServerIO.HttpServerIO.SetState | StarPlayrXServe/Sources/StarPlayrXServe/HttpServerIO.swift:42-44 | the setter stores the raw value and nothing else |
| ServerIO.HttpServerIO.Start | StarPlayrXServe/Sources/StarPlayrXServe/HttpServerIO.swift:88-101 | an invalid port or a failed listener throws its message with no field changed; on success: running, with the new listener |
| ServerIO.HttpServerIO.Stop | StarPlayrXServe/Sources/StarPlayrXServe/HttpServerIO.swift:155-168 | every tracked connection is cancelled and none is tracked any more; the timer is disarmed, the listener cancelled, and the state stopped |
| ServerIO.DefaultDispatch | StarPlayrXServe/Sources/StarPlayrXServe/HttpServerIO.swift:170-172 | the base dispatch has no params and answers 404 |
| ServerIO.IsStreamRequest | StarPlayrXServe/Sources/StarPlayrXServe/HttpServerIO.swift:236 | a path that ends in `.m3u8` or `.ts`. KeepConnectionRule and UnroutedStreamStaysOpen use it |
| ServerIO.KeepConnection | StarPlayrXServe/Sources/StarPlayrXServe/HttpServerIO.swift:245 | a stream request is always kept open, any other one when it asks for keep-alive. KeepConnectionRule states both cases |
| ServerIO.Answer | StarPlayrXServe/Sources/StarPlayrXServe/HttpServerIO.swift:238-242 | the dispatched params are written into the request and the handler answers it. `HandleChunk` is proved to respond with it |
| ServerIO.HeaderBlock | StarPlayrXServe/Sources/StarPlayrXServe/HttpServerIO.swift:287-310 | the status line, Content-Length, the connection lines, the no-cache lines of a stream, one line per header in the order visited, then the blank line. `BuildResponseHeader` is proved to build it, and EnumerationSize counts its field lines |
| ServerIO.BuildResponseHeader | StarPlayrXServe/Sources/StarPlayrXServe/HttpServerIO.swift:287-310 | the header string equals `HeaderBlock` for the dictionary order the loop visits |
| ServerIO.AppendConnectionLines | StarPlayrXServe/Sources/StarPlayrXServe/HttpServerIO.swift:292-305 | the keep-alive lines or the close line, then the no-cache lines for a stream |
| ServerIO.AppendFieldLines | StarPlayrXServe/Sources/StarPlayrXServe/HttpServerIO.swift:307-309 | one `name: value` line per header, each key exactly once |
| ServerIO.Respond | StarPlayrXServe/Sources/StarPlayrXServe/HttpServerIO.swift:285-400 | the connection receives exactly `Transmit`'s sends and cancel, and the return value is `Transmit`'s result |
| ServerIO.Transmit | StarPlayrXServe/Sources/StarPlayrXServe/HttpServerIO.swift:317-399 | the header bytes, then the body unless the writer throws (which cancels and returns false), then an empty flush unless kept alive; the result is `keepAlive`. TransmitShape and TransmissionFacts state it, and `Respond` is proved to send it |
| ServerIO.HandleChunk | StarPlayrXServe/Sources/StarPlayrXServe/HttpServerIO.swift:227-270 | a parse error: cancel without responding; need more data: nothing happens; a request: answer it with the dispatched params, respond, and cancel unless kept |
| ServerIOProperties.KeepConnectionRule | StarPlayrXServe/Sources/StarPlayrXServe/HttpServerIO.swift:236-245 | stream paths are always kept open; other requests are kept if and only if they ask for keep-alive |
| ServerIOProperties.UnroutedStreamStaysOpen | StarPlayrXServe/Sources/StarPlayrXServe/HttpServerIO.swift:236-249 | `GET /nosuch.m3u8` with `Connection: close` and no route: a 404 with keep-alive and no-cache headers, and the connection stays open |
| ServerIOProperties.TransmissionFacts | StarPlayrXServe/Sources/StarPlayrXServe/HttpServerIO.swift:317-399 | the header goes first; the connection is cancelled if and only if the JSON body cannot be written; the body bytes equal the advertised length; a close sends a final empty flush |
| ServerIOProperties.TransmitShape | StarPlayrXServe/Sources/StarPlayrXServe/HttpServerIO.swift:317-399 | for any header and body writer: the header first, a cancel exactly for a throwing writer, the body bytes next, and the empty flush exactly when the connection is not kept |
| ServerIOProperties.EnumerationSize | StarPlayrXServe/Sources/StarPlayrXServe/HttpServerIO.swift:307-309 | the header block has one field line per header |
| Playlists.ProcessPlaylist | StarPlayrRadioKit/Sources/StarPlayrRadioKit/Routes/playlistRoute.swift:61-77 | `processPlaylist`: the four rewrites in source order, `key/1` to the key route, the channel id to the audio prefix plus the id, target duration 10 to 9, and `#EXTINF:10,` to `#EXTINF:1,`. ProcessPlaylistBySplits and ProcessPlaylistUnchanged state it |
| Playlists.ProcessPlaylistBySplits | StarPlayrRadioKit/Sources/StarPlayrRadioKit/Routes/playlistRoute.swift:61-77 | each of the four steps cuts at every occurrence of its search string and glues the pieces with its replacement, in the order key path, channel prefix, target duration, segment duration |
| Playlists.ProcessPlaylistUnchanged | StarPlayrRadioKit/Sources/StarPlayrRadioKit/Routes/playlistRoute.swift:61-77 | a playlist containing none of the four search strings is returned unchanged |
| Text.ReplaceAll | StarPlayrRadioKit/Sources/StarPlayrRadioKit/Routes/playlistRoute.swift:65-74 | `replacingOccurrences(of:with:)`: every non-overlapping occurrence from the left, and an empty target leaves the text as it is. ReplaceAllIsJoinOfSplit and ReplaceAllBySelf state it |
| Text.ReplaceAllIsJoinOfSplit | StarPlayrRadioKit/Sources/StarPlayrRadioKit/Routes/playlistRoute.swift:65-74 | `replacingOccurrences` equals splitting at the target, then joining with the replacement |
| Text.ReplaceAllBySelf | StarPlayrRadioKit/Sources/StarPlayrRadioKit/Routes/playlistRoute.swift:68 | replacing a string by itself changes nothing |
| Text.SplitOmitting | StarPlayrRadioKit/Sources/StarPlayrRadioKit/Routes/playlistRoute.swift:31 | `split(separator:)`: its ensures say every piece is non-empty and free of the separator. SplitOmittingEmpty and SplitOmittingFirst state when there are no pieces and what the first one is |
| Text.SplitOmittingEmpty | StarPlayrRadioKit/Sources/StarPlayrRadioKit/Routes/playlistRoute.swift:31 | `split(separator: ".")` has no pieces if and only if the id consists only of dots |
| Text.SplitOmittingFirst | StarPlayrRadioKit/Sources/StarPlayrRadioKit/Routes/playlistRoute.swift:31 | the first piece is the first maximal run of non-dot characters |
| Playlists.ChannelKey | StarPlayrRadioKit/Sources/StarPlayrRadioKit/Routes/playlistRoute.swift:31 | the key is absent if and only if the id consists only of dots; otherwise it is the first non-empty dot-free run after the leading dots |
| Playlists.KeyBeforeDot | StarPlayrRadioKit/Sources/StarPlayrRadioKit/Routes/playlistRoute.swift:31 | an id that starts with a dot-free name followed by a dot has that name as its key |
| Playlists.PlayerPathSelectsChannel | StarPlayrRadioKit/Sources/StarPlayrRadioKit/Routes/playlistRoute.swift:31 | the player's `/api/v3/m3u/<name>.m3u8` binds the whole segment and selects the key `name` |
| Playlists.SelectedChannel | StarPlayrRadioKit/Sources/StarPlayrRadioKit/Routes/playlistRoute.swift:25-33 | a channel is selected if and only if the param exists, yields a key, and the key is in the table |
| Playlists.PlaylistText | StarPlayrRadioKit/Sources/StarPlayrRadioKit/Routes/playlistRoute.swift:52-81 | no selected channel, or a nil argument to the fetch closure, gives nothing; otherwise the rewrite of the text handed to the closure, for the table's channel id |
| Playlists.PlaylistResponse | StarPlayrRadioKit/Sources/StarPlayrRadioKit/Routes/playlistRoute.swift:83-87 | 200 with an HLS playlist body if and only if the text is non-empty; otherwise 404 with an empty body and no headers |
| Playlists.MissingChannelIdIsNotFound | StarPlayrRadioKit/Sources/StarPlayrRadioKit/Routes/playlistRoute.swift:25-29 | a request without channelid is answered 404 |
| Playlists.RefreshDue | StarPlayrRadioKit/Sources/StarPlayrRadioKit/Routes/playlistRoute.swift:45 | the refresh test: at least 480000 / 2 milliseconds since the recorded expiry. The contracts of NextExpiry and SessionCalls are stated with it |
| Playlists.NextExpiry | StarPlayrRadioKit/Sources/StarPlayrRadioKit/Routes/playlistRoute.swift:38-50 | a new channel sets the expiry to now; if the refresh is due, the expiry is now; otherwise it is kept; afterwards no refresh is due |
| Playlists.SessionCalls | StarPlayrRadioKit/Sources/StarPlayrRadioKit/Routes/playlistRoute.swift:38-50 | a reset call if and only if the channel changed; a refresh call if and only if the channel is unchanged and 240000 ms have passed; never both |
| Playlists.TokenState.constructor | StarPlayrRadioKit/Sources/StarPlayrRadioKit/Routes/playlistRoute.swift:11-12 | the globals start as "" and 0 |
| Playlists.TokenState.Handle | StarPlayrRadioKit/Sources/StarPlayrRadioKit/Routes/playlistRoute.swift:20-90 | the response follows `PlaylistText`; when no channel is selected nothing changes; otherwise the current channel, the stored id, the expiry and the session calls follow the reset and refresh rules |
| Playlists.SecondCallIsQuiet | StarPlayrRadioKit/Sources/StarPlayrRadioKit/Routes/playlistRoute.swift:38-50 | a second call for the same channel at the same instant makes no session call and keeps the expiry |
| Playlists.ChannelKeyAsWritten | StarPlayrRadioKit/Sources/StarPlayrRadioKit/Routes/playlistRoute.swift:31 | the unguarded subscript `[0]` needs a non-dot character; where it is defined, it agrees with `ChannelKey` |
| Playlists.EmptyChannelIdReachesSubscript | StarPlayrRadioKit/Sources/StarPlayrRadioKit/Routes/playlistRoute.swift:31 | `/api/v3/m3u/` binds channelid = "", which has no piece to subscript; the corrected handler answers 404 |

## Left out

- Network.framework I/O is not modelled. This covers:
  - the listener's state handler and the restart timer (`HttpServerIO.swift` 58-86 and 103-153);
  - the connection state handler (177-211);
  - receive errors (216-225);
  - the `isComplete` flag, which also decides whether receiving goes on (273-278);
  - send errors and the semaphores (312-390);
  - the sleeps (392-397);
  - `port()`;
  - the delegate and the dispatch queues.

  These are I/O, concurrency and timing. The tracked connections list is never filled by the model, because the accept handler is part of that I/O.
- Errors thrown by header, body or flush sends are not modelled: `respond`'s error path and the caller's cancel on a thrown error (`HttpServerIO.swift` 255-264) are network errors. The modelled send always succeeds.
- The fallback for a deallocated server (`self?` in `HttpServerIO.swift` 239 and 249) is left out: it concerns object lifetime, which the model does not have.
- The `print` of the request body (`HttpServerIO.swift` 231-233) is left out: it is console output.
- `JSONSerialization` is a parameter of the model, not a definition. It is foreign code.
- `HttpResponseBodyWriter` is not modelled as an object. A body's writer is reduced to the bytes it writes, or to throwing.
- The UTF-8 decoding of the header block is a strict decoder. It rejects overlong forms, surrogates and truncated sequences, and does not strip a byte-order mark. Foundation's `String(data:encoding:)` is foreign code.
- Text.TrimSpaces: states the trimming of spaces and tabs only (`Text.Trim`). `.whitespaces` includes the other Unicode space separators, and the model has no Unicode tables.
- Text.AsciiLower: lower-cases ASCII letters only. `lowercased()` is Unicode-aware, and the model has no Unicode tables.
- Swift compares, splits and hashes `String` values by grapheme cluster under canonical equivalence, and the model does so by Unicode scalar value. This touches every string comparison, split, prefix test, replacement and map key of the model. In the parser these are Parsing.ParseHeaderLine and Parsing.HeaderFields. In the router they are Routing.IsExact, Routing.ExactMatch and Routing.HttpRouter.Route (`HttpRouter.swift` 20), Routing.IsParam and the name taken after the colon (lines 56-58), and the literal test of Routing.BindSegments and Routing.HttpRouter.MatchRoute (line 60). Through them Routing.MatchParams, Routing.PatternMatch and Routing.Resolve are affected too. In the server it is ServerIO.IsStreamRequest. In the playlist route it is Playlists.ChannelKey, the channel test of Playlists.TokenState.Handle, Playlists.SessionCalls and Playlists.NextExpiry (`playlistRoute.swift` 38), and Text.ReplaceAll under Playlists.ProcessPlaylist (lines 65-74). `Text.Split`, `Text.SplitOmitting` and `Text.EndsWith` lie under these. Four inputs behave differently:
  - in the header line `X:\u{301}v`, Swift sees the character `:\u{301}`, which is not `:`, so `split` (`HttpParser.swift` 72) gives one piece and the line is ignored. `ParseHeaderLine` instead adds the key `X`;
  - the keys `\u{E9}` and `e\u{301}` are one entry of `currentHeaders` (`HttpParser.swift` 76), but two keys of `HeaderFields`;
  - the pattern segment `:\u{301}id` is a parameter for `IsParam`, but a literal for `starts(with: ":")` (`HttpRouter.swift` 56);
  - a route registered as `/caf\u{E9}` is an exact match for the request path `/cafe\u{301}` in Swift (`HttpRouter.swift` 20), while `ExactMatch` returns nothing.

  The same holds for the `.` split of `playlistRoute.swift` 31 and the `hasSuffix` tests of `HttpServerIO.swift` 236. Modelling this would need Unicode segmentation and normalisation tables.
- 64-bit wrap-around is not modelled. Blocks, lengths and `now - tokenExpires` are unbounded integers. `Int(String)` is limited to the Int64 range, and values outside it are rejected.
- In the playlist route:
  - the `userX` object is reduced to its channel table (key to channel id) and its current channel;
  - `Session`, the `TextSync` fetch and `Playlist(channelid:)` are not performed: the session calls are returned as values, and the text handed to the fetch closure is a parameter. `None` stands for the closure's nil, which `TextSync` (`API/Text.swift` 4-30) never passes;
  - what `TextSync` does on failure is not modelled. For an invalid URL it hands the closure the text "error1" (line 5), which the handler rewrites and serves as a 200 playlist: the model gives that answer only when `fetched == Some("error1")` is passed. For missing or non-UTF-8 data it hands over "error2" but never signals its semaphore (line 21), so the wait at line 29 blocks the handler for ever. The model has no blocking, and every call returns;
  - `autoreleasepool` is a memory-management detail and is left out.
- Playlists.TokenState.Handle: reads the clock once as `now`, while the source reads it up to three times. Reading it once means a channel reset and a refresh never happen in the same call.
- Servers.HttpServer: `get` and `post` are fixed at construction (`const`), while `HttpServer.swift` 20-21 declares them `public var`. Reassigning a view to another `MethodRoute`, one that may point at a different router, is not modelled, so the model always has both views on the server's own router.
- The `playlistRoute()` wrapper that packages the handler as a `dispatchHttpReq` value is not modelled. Its handler changes global state, so it is not a function value. `TokenState.Handle` is that handler, and it takes the request's params.
- The other routes of the radio app (`loginRoute`, `sessionRoute`, `keyOneRoute`, `regionRoute`, `pingRoute`, `checkRoute`) are not modelled. The same holds for the app's player and view controller and its `Data`/`Text` fetch helpers. These are thin wrappers over network calls, globals, and media and UI frameworks.

## Findings

| source | as written | input that shows it | evidently intended | confidence | as-written member | corrected member |
|---|---|---|---|---|---|---|
| StarPlayrRadioKit/Sources/StarPlayrRadioKit/Routes/playlistRoute.swift:31 | `channelid.split(separator: ".")[0]` subscripts the pieces without checking that there is one. `split` omits empty pieces, so an id made only of dots gives none, and the subscript traps. | `GET /api/v3/m3u/` against the route `/api/v3/m3u/:channelid` binds channelid = "". The handler reads that parameter (playlistRoute.swift:26), and the player asks for `/api/v3/m3u/<channel>.m3u8` (StarPlayrX/StarPlayrX/StarPlayrX/StarPlayrX/Model/Player.swift:377). The radio app's own registration of the route is not part of this model. | answer 404, as for an unknown channel | not executed; the binding and the empty split are proved | Playlists.ChannelKeyAsWritten, Playlists.EmptyChannelIdReachesSubscript | Playlists.ChannelKey, Playlists.TokenState.Handle |
