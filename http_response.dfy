/** Outbound responses (`HttpResponse`) and their factories. */
module Responses {
  import opened Wrappers
  import opened Bodies

  /** Built through `MakeResponse`, which is the struct's only initialiser. */
  datatype HttpResponse = HttpResponse(
    statusCode: int,
    reasonPhrase: string,
    headers: map<string, string>,
    content: HttpRespBody)

  /** `init(statusCode:reasonPhrase:headers:content:)`: the caller's headers,
      with `Content-Type` taken from the body only when the caller did not
      name one. */
  function MakeResponse(statusCode: int, reasonPhrase: string, headers: map<string, string>, content: HttpRespBody): (r: HttpResponse)
    ensures r.statusCode == statusCode && r.reasonPhrase == reasonPhrase && r.content == content
    ensures "Content-Type" in headers ==> r.headers == headers
    ensures "Content-Type" !in headers && ContentType(content).Some? ==>
              "Content-Type" in r.headers && r.headers["Content-Type"] == ContentType(content).value
    ensures "Content-Type" !in headers && ContentType(content).None? ==> "Content-Type" !in r.headers
    ensures forall k :: k != "Content-Type" ==> (k in r.headers <==> k in headers)
    ensures forall k :: k != "Content-Type" && k in headers ==> r.headers[k] == headers[k]
  {
    var allHeaders :=
      if ContentType(content).Some? && "Content-Type" !in headers
      then headers["Content-Type" := ContentType(content).value]
      else headers;
    HttpResponse(statusCode, reasonPhrase, allHeaders, content)
  }

  /** `ok`. */
  function Ok(content: HttpRespBody): (r: HttpResponse)
    ensures r.statusCode == 200 && r.reasonPhrase == "OK" && r.content == content
    ensures r.headers == if ContentType(content).Some? then map["Content-Type" := ContentType(content).value] else map[]
  {
    MakeResponse(200, "OK", map[], content)
  }

  /** `notFound`: 404 with the given body, or the empty body with no headers. */
  function NotFound(content: Option<HttpRespBody>): (r: HttpResponse)
    ensures r.statusCode == 404 && r.reasonPhrase == "Not Found"
    ensures r.content == content.GetOr(Empty)
    ensures r.headers == if ContentType(r.content).Some? then map["Content-Type" := ContentType(r.content).value] else map[]
    ensures content.None? ==> r.headers == map[]
  {
    MakeResponse(404, "Not Found", map[], content.GetOr(Empty))
  }

  /** `internalServerError`. */
  function InternalServerError(content: Option<HttpRespBody>): (r: HttpResponse)
    ensures r.statusCode == 500 && r.reasonPhrase == "Internal Server Error"
    ensures r.content == content.GetOr(Empty)
    ensures r.headers == if ContentType(r.content).Some? then map["Content-Type" := ContentType(r.content).value] else map[]
    ensures content.None? ==> r.headers == map[]
  {
    MakeResponse(500, "Internal Server Error", map[], content.GetOr(Empty))
  }

  /** Building a response twice over its own headers changes nothing: a
      `Content-Type` once present is never replaced. */
  lemma MakeResponseStable(statusCode: int, reasonPhrase: string, headers: map<string, string>, content: HttpRespBody)
    ensures var r := MakeResponse(statusCode, reasonPhrase, headers, content);
            MakeResponse(statusCode, reasonPhrase, r.headers, content) == r
  {
  }
}
