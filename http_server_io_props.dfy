/**
 * Properties of the per-request decisions and of what `respond` puts on
 * the connection.
 */
module ServerIOProperties {
  import opened Wrappers
  import opened Text
  import opened Numbers
  import Utf8
  import opened Requests
  import opened Bodies
  import opened Responses
  import opened Parsing
  import opened Routing
  import opened ServerIO

  /** Stream requests are always kept open; any other request is kept open
      exactly when it asked for keep-alive. */
  lemma KeepConnectionRule(request: HttpRequest)
    ensures IsStreamRequest(request.path) ==> KeepConnection(request)
    ensures !IsStreamRequest(request.path) ==> (KeepConnection(request) <==> SupportsKeepAlive(request.headers))
  {
  }

  /** A request for a missing playlist that asks to close the connection is
      answered by the default dispatch with a 404 and an empty body, and the
      connection is nevertheless kept open with keep-alive and no-cache
      lines. */
  lemma UnroutedStreamStaysOpen(encode: JsonEncoder)
    ensures var request := NewRequest("GET", "/nosuch.m3u8", map["Connection" := "close"], None);
            var response := Answer(request, DefaultDispatch(request));
            && IsStreamRequest(request.path)
            && !SupportsKeepAlive(request.headers)
            && KeepConnection(request)
            && response == NotFound(None)
            && HeaderBlock(response, true, true, encode, []) ==
               StatusLine(404, "Not Found") + "Content-Length: 0\r\n"
               + KeepAliveLine + KeepAliveTimeoutLine
               + CacheControlLine + PragmaLine + ExpiresLine + "\r\n"
  {
    UnroutedStreamDecision();
    NotFoundStreamHeader(encode);
  }

  /** The decisions for `GET /nosuch.m3u8` with `Connection: close`. */
  lemma UnroutedStreamDecision()
    ensures var request := NewRequest("GET", "/nosuch.m3u8", map["Connection" := "close"], None);
            && IsStreamRequest(request.path)
            && !SupportsKeepAlive(request.headers)
            && KeepConnection(request)
            && Answer(request, DefaultDispatch(request)) == NotFound(None)
  {
    assert "/nosuch.m3u8"[|"/nosuch.m3u8"| - |".m3u8"|..] == ".m3u8";
    assert AsciiLower("close")[0] == 'c';
  }

  /** The header block of an empty 404 on a kept stream connection. */
  lemma NotFoundStreamHeader(encode: JsonEncoder)
    ensures HeaderBlock(NotFound(None), true, true, encode, []) ==
            StatusLine(404, "Not Found") + "Content-Length: 0\r\n"
            + KeepAliveLine + KeepAliveTimeoutLine
            + CacheControlLine + PragmaLine + ExpiresLine + "\r\n"
  {
    var response := NotFound(None);
    assert Length(response.content, encode) == 0;
    assert IntToString(0) == "0";
    var status := StatusLine(404, "Not Found");
    var a := status + "Content-Length: " + IntToString(0) + CRLF;
    assert a == status + "Content-Length: 0\r\n" by {
      AppendAssoc(status, "Content-Length: ", "0");
      AppendAssoc(status, "Content-Length: " + "0", "\r\n");
    }
    AppendAssoc(a, KeepAliveLine, KeepAliveTimeoutLine);
    var b := a + KeepAliveLine + KeepAliveTimeoutLine;
    AppendAssoc(b, CacheControlLine, PragmaLine);
    AppendAssoc(b, CacheControlLine + PragmaLine, ExpiresLine);
    var c := b + CacheControlLine + PragmaLine + ExpiresLine;
    assert FieldLines(response.headers, []) == "";
    assert c + "" == c;
  }

  /** The number of bytes the connection receives for its traffic. */
  function TotalBytes(sends: seq<seq<byte>>): nat
    decreases |sends|
  {
    if sends == [] then 0 else |sends[0]| + TotalBytes(sends[1..])
  }

  lemma {:induction false} TotalBytesAppend(a: seq<seq<byte>>, b: seq<seq<byte>>)
    ensures TotalBytes(a + b) == TotalBytes(a) + TotalBytes(b)
    decreases |a|
  {
    if a != [] {
      assert (a + b)[1..] == a[1..] + b;
      TotalBytesAppend(a[1..], b);
    } else {
      assert a + b == b;
    }
  }

  /** Unless the body's writer throws, `respond` sends the header, then
      exactly as many bytes as the Content-Length line declares, then an
      empty flush if and only if the connection is not kept, and returns
      `keepAlive`; a throwing writer (a JSON body that fails to encode)
      cancels the connection after the header and returns false.  A kept
      connection gets no flush: one send for the header and one for a
      non-empty body variant. */
  lemma TransmissionFacts(response: HttpResponse, keepAlive: bool, isStream: bool, encode: JsonEncoder, order: seq<string>)
    requires Enumerates(order, response.headers.Keys)
    ensures var header := HeaderBlock(response, keepAlive, isStream, encode, order);
            var t := Transmit(header, Writer(response.content, encode), keepAlive);
            && t.sends[0] == Utf8.Encode(header)
            && (t.cancels <==> response.content.Json? && encode(response.content.value).None?)
            && (t.cancels ==> |t.sends| == 1 && !t.result)
            && (!t.cancels ==>
                  && t.result == keepAlive
                  && TotalBytes(t.sends[1..]) == Length(response.content, encode)
                  && (!keepAlive ==> |t.sends| >= 2 && t.sends[|t.sends| - 1] == [])
                  && (keepAlive ==> |t.sends| == if response.content.Empty? then 1 else 2))
  {
    var header := HeaderBlock(response, keepAlive, isStream, encode, order);
    var body := Writer(response.content, encode);
    LengthMatchesWriter(response.content, encode);
    EmptyBody(encode);
    TransmitShape(header, body, keepAlive);
  }

  /** What `Transmit` sends for any header and body writer. */
  lemma TransmitShape(header: string, body: Option<BodyWrite>, keepAlive: bool)
    ensures var t := Transmit(header, body, keepAlive);
            && t.sends[0] == Utf8.Encode(header)
            && (t.cancels <==> body == Some(Throws))
            && (t.cancels ==> |t.sends| == 1 && !t.result)
            && (!t.cancels ==>
                  && t.result == keepAlive
                  && TotalBytes(t.sends[1..]) == (if body.Some? then |body.value.bytes| else 0)
                  && (!keepAlive ==> |t.sends| >= 2 && t.sends[|t.sends| - 1] == [])
                  && (keepAlive ==> |t.sends| == if body.Some? then 2 else 1))
  {
    var t := Transmit(header, body, keepAlive);
    if !t.cancels {
      var bodySends := if body.Some? then [body.value.bytes] else [];
      var flush: seq<seq<byte>> := if keepAlive then [] else [[]];
      assert t.sends[1..] == bodySends + flush;
      TotalBytesAppend(bodySends, flush);
      assert TotalBytes(flush) == 0;
      if body.Some? {
        assert TotalBytes(bodySends) == |body.value.bytes| by {
          assert bodySends[1..] == [];
        }
      }
    }
  }

  /** An enumeration of the keys has one entry per key, so the block carries
      exactly one field line per response header. */
  lemma {:induction false} EnumerationSize(order: seq<string>, keys: set<string>)
    requires Enumerates(order, keys)
    ensures |order| == |keys|
    decreases |order|
  {
    if order != [] {
      var last := order[|order| - 1];
      var init := order[..|order| - 1];
      assert forall k :: k in init ==> k != last by {
        forall k | k in init
          ensures k != last
        {
          var i :| 0 <= i < |init| && init[i] == k;
          assert order[i] == k;
        }
      }
      assert Enumerates(init, keys - {last}) by {
        forall k
          ensures k in init <==> k in keys - {last}
        {
          if k in keys - {last} {
            assert k in order;
            var i :| 0 <= i < |order| && order[i] == k;
            assert i < |init| && init[i] == k;
          }
        }
      }
      EnumerationSize(init, keys - {last});
    } else {
      assert forall k :: k !in keys;
      assert keys == {};
    }
  }
}
