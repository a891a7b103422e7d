/**
 * Response bodies (`HttpRespBody`): each variant knows its length, its
 * content type and how to write itself to a byte sink
 * (`HttpResponseBodyWriter`).  JSON serialisation belongs to Foundation and
 * is a parameter here: a partial function from a JSON value to its bytes.
 */
module Bodies {
  import opened Wrappers
  import opened Text
  import Utf8

  /** The structured values a `.json` body carries. */
  datatype JsonValue =
    | JNull
    | JBool(b: bool)
    | JNumber(n: int)
    | JString(s: string)
    | JArray(items: seq<JsonValue>)
    | JObject(fields: map<string, JsonValue>)

  /** `JSONSerialization.data(withJSONObject:)`: None where it throws. */
  type JsonEncoder = JsonValue -> Option<seq<byte>>

  datatype HttpRespBody =
    | Json(value: JsonValue, contentType: Option<string>)
    | Ping(text: string, contentType: Option<string>)
    | Data(data: seq<byte>, contentType: Option<string>)
    | Byts(bytes: seq<byte>, contentType: Option<string>)
    | Empty

  /** What the `write` closure does with the sink it is given: hand it these
      bytes in a single write, or throw before writing. */
  datatype BodyWrite = Writes(bytes: seq<byte>) | Throws

  // The enum's cases with their default content types.

  function JsonOf(value: JsonValue): (b: HttpRespBody)
    ensures ContentType(b) == Some("application/json")
    ensures b.Json? && b.value == value
  {
    Json(value, Some("application/json"))
  }

  function PingOf(text: string): (b: HttpRespBody)
    ensures ContentType(b) == Some("text/plain")
    ensures b.Ping? && b.text == text
  {
    Ping(text, Some("text/plain"))
  }

  function DataOf(data: seq<byte>): (b: HttpRespBody)
    ensures ContentType(b) == None
    ensures b.Data? && b.data == data
  {
    Data(data, None)
  }

  function BytsOf(bytes: seq<byte>): (b: HttpRespBody)
    ensures ContentType(b) == None
    ensures b.Byts? && b.bytes == bytes
  {
    Byts(bytes, None)
  }

  /** `length`: the number of bytes the body occupies on the wire. */
  function Length(b: HttpRespBody, encode: JsonEncoder): nat
  {
    match b
    case Json(value, _) => if encode(value).Some? then |encode(value).value| else 0
    case Ping(text, _) => |Utf8.Encode(text)|
    case Data(data, _) => |data|
    case Byts(bytes, _) => |bytes|
    case Empty => 0
  }

  /** `contentType`. */
  function ContentType(b: HttpRespBody): (r: Option<string>)
    ensures b.Empty? ==> r == None
    ensures !b.Empty? ==> r == b.contentType
  {
    match b
    case Json(_, ct) => ct
    case Ping(_, ct) => ct
    case Data(_, ct) => ct
    case Byts(_, ct) => ct
    case Empty => None
  }

  /** `write`: None for the empty body, otherwise what its closure writes. */
  function Writer(b: HttpRespBody, encode: JsonEncoder): Option<BodyWrite>
  {
    match b
    case Json(value, _) => if encode(value).Some? then Some(Writes(encode(value).value)) else Some(Throws)
    case Ping(text, _) => Some(Writes(Utf8.Encode(text)))
    case Data(data, _) => Some(Writes(data))
    case Byts(bytes, _) => Some(Writes(bytes))
    case Empty => None
  }

  /** `makeString`. */
  function MakeString(text: string, contentType: Option<string> := Some("text/plain")): (b: HttpRespBody)
    ensures b.Ping? && b.text == text && ContentType(b) == contentType
  {
    Ping(text, contentType)
  }

  /** `makeJson`. */
  function MakeJson(value: JsonValue): (b: HttpRespBody)
    ensures b.Json? && b.value == value && ContentType(b) == Some("application/json")
  {
    JsonOf(value)
  }

  /** Only the empty body has no writer, no length and no content type of its own. */
  lemma EmptyBody(encode: JsonEncoder)
    ensures Length(Empty, encode) == 0 && ContentType(Empty) == None && Writer(Empty, encode) == None
    ensures forall b: HttpRespBody :: Writer(b, encode) == None <==> b.Empty?
  {
  }

  /** The announced length is the number of bytes the writer hands the sink:
      the text's UTF-8 bytes for `.ping`, the stored bytes for `.data` and
      `.byts`, the serialisation for `.json`; a failing serialisation has
      length 0 and its writer throws. */
  lemma LengthMatchesWriter(b: HttpRespBody, encode: JsonEncoder)
    ensures Writer(b, encode).Some? && Writer(b, encode).value.Writes? ==>
              Length(b, encode) == |Writer(b, encode).value.bytes|
    ensures Writer(b, encode) == Some(Throws) ==> Length(b, encode) == 0 && b.Json? && encode(b.value).None?
    ensures b.Ping? ==> Writer(b, encode) == Some(Writes(Utf8.Encode(b.text)))
    ensures b.Data? ==> Writer(b, encode) == Some(Writes(b.data))
    ensures b.Byts? ==> Writer(b, encode) == Some(Writes(b.bytes))
  {
  }

  /** Plain ASCII text is as long as it has characters. */
  lemma AsciiPingLength(text: string, ct: Option<string>, encode: JsonEncoder)
    requires Utf8.IsAscii(text)
    ensures Length(Ping(text, ct), encode) == |text|
  {
    Utf8.EncodeAscii(text);
  }
}
