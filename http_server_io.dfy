/**
 * The connection-level server (`HttpServerIO`): its lifecycle state, the
 * start/stop effects on its fields, the per-request decisions taken when a
 * chunk arrives on a connection, and the response header block written by
 * `respond`.
 *
 * The network is reduced to `Connection`, which records what was sent and
 * whether it was cancelled.  Whether the operating system accepts a port
 * or creates a listener is a parameter of `Start`.
 */
module ServerIO {
  import opened Wrappers
  import opened Text
  import opened Numbers
  import Utf8
  import opened SocketErrors
  import opened Requests
  import opened Bodies
  import opened Responses
  import opened Parsing
  import opened Routing

  type Int32 = x: int | -0x8000_0000 <= x < 0x8000_0000

  // ---------------------------------------------------------------------------
  // Lifecycle state

  datatype HttpServerIOState = Starting | Running | Stopping | Stopped

  /** The enum's `Int32` raw values, in declaration order. */
  function RawValue(s: HttpServerIOState): (raw: Int32)
    ensures 0 <= raw <= 3
  {
    match s
    case Starting => 0
    case Running => 1
    case Stopping => 2
    case Stopped => 3
  }

  /** `HttpServerIOState(rawValue:) ?? .stopped`. */
  function StateOf(raw: Int32): HttpServerIOState
  {
    if raw == 0 then Starting
    else if raw == 1 then Running
    else if raw == 2 then Stopping
    else Stopped
  }

  /** Reading back a stored state gives that state; a raw value outside the
      enum reads as `.stopped`. */
  lemma StateOfRawValue(s: HttpServerIOState, raw: Int32)
    ensures StateOf(RawValue(s)) == s
    ensures !(0 <= raw <= 3) ==> StateOf(raw) == Stopped
    ensures 0 <= raw <= 3 ==> RawValue(StateOf(raw)) == raw
  {
  }

  datatype Listener = Listener(port: nat, cancelled: bool)

  /** What the transport records of one connection. */
  class Connection {
    var sent: seq<seq<byte>>
    var cancelled: bool

    constructor ()
      ensures sent == [] && !cancelled
    {
      sent := [];
      cancelled := false;
    }

    method Send(content: seq<byte>)
      modifies this
      ensures sent == old(sent) + [content] && cancelled == old(cancelled)
    {
      sent := sent + [content];
    }

    method Cancel()
      modifies this
      ensures cancelled && sent == old(sent)
    {
      cancelled := true;
    }
  }

  class HttpServerIO {
    var stateValue: Int32
    var listener: Option<Listener>
    var connections: seq<Connection>
    var restartTimerArmed: bool

    constructor (listener: Option<Listener> := None, connections: seq<Connection> := [], stateValue: Int32 := 3)
      ensures this.listener == listener && this.connections == connections && this.stateValue == stateValue
      ensures !restartTimerArmed
    {
      this.listener := listener;
      this.connections := connections;
      this.stateValue := stateValue;
      restartTimerArmed := false;
    }

    /** The `state` getter. */
    function State(): HttpServerIOState
      reads this
    {
      StateOf(stateValue)
    }

    /** The `state` setter. */
    method SetState(s: HttpServerIOState)
      modifies this
      ensures stateValue == RawValue(s) && State() == s
      ensures listener == old(listener) && connections == old(connections) && restartTimerArmed == old(restartTimerArmed)
    {
      stateValue := RawValue(s);
    }

    /** `start(port)`: both failures throw before any field changes. */
    method Start(port: nat, portAccepted: bool, listenerCreated: bool) returns (r: Outcome<SocketError>)
      requires port < 0x1_0000
      modifies this
      ensures !portAccepted ==> r == Fail(SocketCreationFailed("Invalid port"))
      ensures portAccepted && !listenerCreated ==> r == Fail(SocketCreationFailed("Failed to create listener"))
      ensures r.Fail? ==>
                stateValue == old(stateValue) && listener == old(listener) && connections == old(connections)
                && restartTimerArmed == old(restartTimerArmed)
      ensures portAccepted && listenerCreated ==>
                r == Pass && State() == Running && listener == Some(Listener(port, false))
                && connections == old(connections) && restartTimerArmed == old(restartTimerArmed)
    {
      if !portAccepted {
        return Fail(SocketCreationFailed("Invalid port"));
      }
      if !listenerCreated {
        return Fail(SocketCreationFailed("Failed to create listener"));
      }
      listener := Some(Listener(port, false));
      SetState(Running);
      r := Pass;
    }

    /** `stop()`: every tracked connection is cancelled and forgotten, the
        timer disarmed, the listener cancelled, and the state ends
        `.stopped`. */
    method Stop()
      modifies this, connections
      ensures State() == Stopped && connections == [] && !restartTimerArmed
      ensures listener == if old(listener).Some? then Some(old(listener).value.(cancelled := true)) else None
      ensures forall c :: c in old(connections) ==> c.cancelled && c.sent == old(c.sent)
    {
      SetState(Stopping);
      restartTimerArmed := false;
      var i := 0;
      while i < |connections|
        invariant 0 <= i <= |connections|
        invariant connections == old(connections) && listener == old(listener) && !restartTimerArmed
        invariant forall j :: 0 <= j < i ==> connections[j].cancelled
        invariant forall c :: c in connections ==> c.sent == old(c.sent)
      {
        connections[i].Cancel();
        i := i + 1;
      }
      connections := [];
      if listener.Some? {
        listener := Some(listener.value.(cancelled := true));
      }
      SetState(Stopped);
    }
  }

  // ---------------------------------------------------------------------------
  // Per-request decisions

  /** The default `dispatch`. */
  function DefaultDispatch(request: HttpRequest): (d: Dispatch)
    ensures d.defaults == map[] && d.handler(request) == NotFound(None)
  {
    NotFoundDispatch()
  }

  /** `hasSuffix(".m3u8") || hasSuffix(".ts")`. */
  predicate IsStreamRequest(path: string)
  {
    EndsWith(path, ".m3u8") || EndsWith(path, ".ts")
  }

  /** `isStreamRequest ? true : supportsKeepAlive(request.headers)`. */
  predicate KeepConnection(request: HttpRequest)
  {
    IsStreamRequest(request.path) || SupportsKeepAlive(request.headers)
  }

  /** The dispatched params are written into the request, then the handler
      runs on it. */
  function Answer(request: HttpRequest, d: Dispatch): HttpResponse
  {
    d.handler(request.(params := d.defaults))
  }

  // ---------------------------------------------------------------------------
  // The response header block

  function StatusLine(statusCode: int, reasonPhrase: string): string
  {
    "HTTP/1.1 " + IntToString(statusCode) + " " + reasonPhrase + CRLF
  }

  const KeepAliveLine := "Connection: keep-alive\r\n"
  const KeepAliveTimeoutLine := "Keep-Alive: timeout=60\r\n"
  const CloseLine := "Connection: close\r\n"
  const CacheControlLine := "Cache-Control: no-cache, no-store, must-revalidate\r\n"
  const PragmaLine := "Pragma: no-cache\r\n"
  const ExpiresLine := "Expires: 0\r\n"

  function ConnectionLines(keepAlive: bool): string
  {
    if keepAlive then KeepAliveLine + KeepAliveTimeoutLine else CloseLine
  }

  function StreamLines(isStream: bool): string
  {
    if isStream then CacheControlLine + PragmaLine + ExpiresLine else ""
  }

  function FieldLine(name: string, value: string): string
  {
    name + ": " + value + CRLF
  }

  /** One field line per key, in the order given. */
  function FieldLines(headers: map<string, string>, order: seq<string>): string
    requires forall k :: k in order ==> k in headers
    decreases |order|
  {
    if order == [] then ""
    else
      var last := order[|order| - 1];
      FieldLines(headers, order[..|order| - 1]) + FieldLine(last, headers[last])
  }

  /** `order` lists every key of the set exactly once. */
  ghost predicate Enumerates(order: seq<string>, keys: set<string>)
  {
    && (forall k :: k in order <==> k in keys)
    && (forall i, j :: 0 <= i < j < |order| ==> order[i] != order[j])
  }

  /** The block `respond` sends before the body, for the dictionary order
      `order` of the response headers. */
  function HeaderBlock(response: HttpResponse, keepAlive: bool, isStream: bool, encode: JsonEncoder, order: seq<string>): string
    requires Enumerates(order, response.headers.Keys)
  {
    StatusLine(response.statusCode, response.reasonPhrase)
    + "Content-Length: " + IntToString(Length(response.content, encode)) + CRLF
    + ConnectionLines(keepAlive)
    + StreamLines(isStream)
    + FieldLines(response.headers, order)
    + CRLF
  }

  /** The header construction of `respond`, append by append; the dictionary
      is visited in an order the model does not fix. */
  method BuildResponseHeader(response: HttpResponse, keepAlive: bool, isStream: bool, encode: JsonEncoder)
    returns (responseHeader: string, ghost order: seq<string>)
    ensures Enumerates(order, response.headers.Keys)
    ensures responseHeader == HeaderBlock(response, keepAlive, isStream, encode, order)
  {
    responseHeader := "HTTP/1.1 " + IntToString(response.statusCode) + " " + response.reasonPhrase + "\r\n";
    responseHeader := responseHeader + "Content-Length: " + IntToString(Length(response.content, encode)) + "\r\n";
    responseHeader := AppendConnectionLines(responseHeader, keepAlive, isStream);
    responseHeader, order := AppendFieldLines(responseHeader, response.headers);
    responseHeader := responseHeader + "\r\n";
  }

  /** The keep-alive or close lines, then the no-cache lines of a stream. */
  method AppendConnectionLines(responseHeader: string, keepAlive: bool, isStream: bool) returns (r: string)
    ensures r == responseHeader + ConnectionLines(keepAlive) + StreamLines(isStream)
  {
    r := responseHeader;
    if keepAlive {
      r := r + KeepAliveLine;
      r := r + KeepAliveTimeoutLine;
      AppendAssoc(responseHeader, KeepAliveLine, KeepAliveTimeoutLine);
    } else {
      r := r + CloseLine;
    }
    ghost var withConnection := r;
    if isStream {
      r := r + CacheControlLine;
      r := r + PragmaLine;
      r := r + ExpiresLine;
      AppendAssoc(withConnection, CacheControlLine, PragmaLine);
      AppendAssoc(withConnection, CacheControlLine + PragmaLine, ExpiresLine);
    } else {
      assert r == withConnection + "";
    }
  }

  /** One `name: value` line per dictionary entry. */
  method AppendFieldLines(responseHeader: string, headers: map<string, string>) returns (r: string, ghost order: seq<string>)
    ensures Enumerates(order, headers.Keys)
    ensures r == responseHeader + FieldLines(headers, order)
  {
    r := responseHeader;
    var remaining := headers.Keys;
    order := [];
    while remaining != {}
      invariant remaining <= headers.Keys
      invariant forall k :: k in order <==> k in headers.Keys && k !in remaining
      invariant forall i, j :: 0 <= i < j < |order| ==> order[i] != order[j]
      invariant r == responseHeader + FieldLines(headers, order)
      decreases |remaining|
    {
      var name :| name in remaining;
      ghost var before := r;
      r := r + name + ": " + headers[name] + "\r\n";
      FieldLineAppended(before, name, headers[name]);
      FieldLinesSnoc(headers, order, name);
      AppendAssoc(responseHeader, FieldLines(headers, order), FieldLine(name, headers[name]));
      order := order + [name];
      remaining := remaining - {name};
    }
  }

  lemma FieldLineAppended(s: string, name: string, value: string)
    ensures s + name + ": " + value + "\r\n" == s + FieldLine(name, value)
  {
    AppendAssoc(s, name, ": ");
    AppendAssoc(s, name + ": ", value);
    AppendAssoc(s, name + ": " + value, "\r\n");
  }

  /** One more key adds its line at the end. */
  lemma FieldLinesSnoc(headers: map<string, string>, order: seq<string>, name: string)
    requires forall k :: k in order ==> k in headers
    requires name in headers
    ensures FieldLines(headers, order + [name]) == FieldLines(headers, order) + FieldLine(name, headers[name])
  {
    assert (order + [name])[..|order|] == order;
  }

  // ---------------------------------------------------------------------------
  // respond

  /** What `respond` does on the connection, and what it returns. */
  datatype Transmission = Transmission(sends: seq<seq<byte>>, cancels: bool, result: bool)

  /** The header's UTF-8 bytes, then the body if there is a writer (a writer
      that throws cancels the connection and returns false), then an empty
      flush unless keep-alive; the result is `keepAlive`. */
  function Transmit(header: string, body: Option<BodyWrite>, keepAlive: bool): Transmission
  {
    var headerBytes := Utf8.Encode(header);
    if body == Some(Throws) then Transmission([headerBytes], true, false)
    else
      var bodySends := if body.Some? then [body.value.bytes] else [];
      var flush := if keepAlive then [] else [[]];
      Transmission([headerBytes] + bodySends + flush, false, keepAlive)
  }

  method Respond(connection: Connection, response: HttpResponse, keepAlive: bool, isStream: bool, encode: JsonEncoder)
    returns (r: bool, ghost order: seq<string>)
    modifies connection
    ensures Enumerates(order, response.headers.Keys)
    ensures var t := Transmit(HeaderBlock(response, keepAlive, isStream, encode, order), Writer(response.content, encode), keepAlive);
            && connection.sent == old(connection.sent) + t.sends
            && connection.cancelled == (old(connection.cancelled) || t.cancels)
            && r == t.result
  {
    var responseHeader;
    responseHeader, order := BuildResponseHeader(response, keepAlive, isStream, encode);
    var write := Writer(response.content, encode);
    ghost var t := Transmit(responseHeader, write, keepAlive);
    var headerBytes := Utf8.Encode(responseHeader);
    connection.Send(headerBytes);
    if write.Some? {
      if write.value.Throws? {
        connection.Cancel();
        r := false;
        assert t.sends == [headerBytes];
        return;
      }
      connection.Send(write.value.bytes);
    }
    if !keepAlive {
      connection.Send([]);
    }
    r := keepAlive;
    assert t.sends == [headerBytes] + (if write.Some? then [write.value.bytes] else [])
                      + (if keepAlive then [] else [[]]);
  }

  // ---------------------------------------------------------------------------
  // One received chunk

  /** The decisions of the receive callback for one non-empty chunk or an
      empty one: parse; on a parse error cancel without responding; on a
      request dispatch, answer, respond, and cancel unless the connection is
      kept. The result says whether receiving goes on. */
  method HandleChunk(connection: Connection, parser: HttpParser, data: seq<byte>,
                     dispatch: HttpRequest -> Dispatch, encode: JsonEncoder)
    returns (continueReceiving: bool, ghost order: seq<string>)
    requires parser.Valid()
    modifies connection, parser
    ensures parser.Valid()
    ensures data == [] ==>
              parser.State() == old(parser.State()) && continueReceiving
              && connection.sent == old(connection.sent) && connection.cancelled == old(connection.cancelled)
    ensures data != [] ==> parser.State() == Feed(old(parser.State()), data).next
    ensures data != [] && Feed(old(parser.State()), data).result.Failure? ==>
              connection.sent == old(connection.sent) && connection.cancelled && !continueReceiving
    ensures data != [] && Feed(old(parser.State()), data).result == Success(None) ==>
              connection.sent == old(connection.sent) && connection.cancelled == old(connection.cancelled) && continueReceiving
    ensures data != [] && Feed(old(parser.State()), data).result.Success? && Feed(old(parser.State()), data).result.value.Some? ==>
              var request := Feed(old(parser.State()), data).result.value.value;
              var response := Answer(request, dispatch(request));
              var keep := KeepConnection(request);
              && Enumerates(order, response.headers.Keys)
              && var t := Transmit(HeaderBlock(response, keep, IsStreamRequest(request.path), encode, order),
                                   Writer(response.content, encode), keep);
                 && connection.sent == old(connection.sent) + t.sends
                 && connection.cancelled == (old(connection.cancelled) || t.cancels || !keep)
                 && continueReceiving == keep
  {
    order := [];
    if data == [] {
      return true, order;
    }
    var parsed := parser.Parse(data);
    if parsed.Failure? {
      connection.Cancel();
      return false, order;
    }
    if parsed.value.None? {
      return true, order;
    }
    var request := parsed.value.value;
    var isStreamRequest := IsStreamRequest(request.path);
    var dispatched := dispatch(request);
    var mutableRequest := request.(params := dispatched.defaults);
    var response := dispatched.handler(mutableRequest);
    var keepConnection := if isStreamRequest then true else SupportsKeepAlive(request.headers);
    var responded;
    responded, order := Respond(connection, response, keepConnection, isStreamRequest, encode);
    if !keepConnection {
      connection.Cancel();
      return false, order;
    }
    continueReceiving := true;
  }
}
