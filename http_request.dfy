/** An inbound request as the parser assembles it (`HttpRequest`). */
module Requests {
  import opened Wrappers
  import opened Text

  /** `params` is the one field set after parsing: the router's bindings are
      written into it before the handler runs. */
  datatype HttpRequest = HttpRequest(
    httpMethod: string,
    path: string,
    headers: map<string, string>,
    body: Option<seq<byte>>,
    params: map<string, string>)

  /** The memberwise initialiser: `params` starts empty. */
  function NewRequest(httpMethod: string, path: string, headers: map<string, string>, body: Option<seq<byte>>): (r: HttpRequest)
    ensures r.httpMethod == httpMethod && r.path == path && r.headers == headers && r.body == body
    ensures r.params == map[]
  {
    HttpRequest(httpMethod, path, headers, body, map[])
  }
}
