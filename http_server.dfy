/**
 * `HttpServer`: the connection-level server together with one route table
 * that its `get` and `post` views share, and the dispatch that consults
 * that table.  The subclassing of the source is modelled by composition:
 * `io` is the connection-level part and `Dispatch` is the override of its
 * default dispatch.
 */
module Servers {
  import opened Wrappers
  import opened Requests
  import opened Routing
  import opened MethodRoutes
  import opened ServerIO

  const Version := "mustang"

  /** `dispatch(request)`: the router's answer, or empty params and a 404
      handler. */
  function RouterDispatch(entries: seq<RouteEntry>, request: HttpRequest): (d: Dispatch)
    ensures Resolve(entries, request.httpMethod, request.path).Some? ==>
              d == Resolve(entries, request.httpMethod, request.path).value
    ensures Resolve(entries, request.httpMethod, request.path).None? ==>
              d.defaults == map[] && forall r :: d.handler(r) == Responses.NotFound(None)
  {
    Resolve(entries, request.httpMethod, request.path).GetOr(NotFoundDispatch())
  }

  class HttpServer {
    const io: HttpServerIO
    const router: HttpRouter
    const post: MethodRoute
    const get: MethodRoute

    constructor ()
      ensures fresh(io) && fresh(router) && router.routeHandlers == []
      ensures io.State() == Stopped && io.connections == [] && io.listener == None
      ensures post.httpMethod == "POST" && post.router == router
      ensures get.httpMethod == "GET" && get.router == router
    {
      var table := new HttpRouter();
      io := new HttpServerIO();
      router := table;
      post := new MethodRoute("POST", table);
      get := new MethodRoute("GET", table);
    }

    /** `routes`. */
    function Routes(): (lines: seq<string>)
      reads router
      ensures |lines| == |router.routeHandlers|
      ensures forall i :: 0 <= i < |router.routeHandlers| ==>
                lines[i] == router.routeHandlers[i].httpMethod + " " + router.routeHandlers[i].path
    {
      router.Routes()
    }

    method Dispatch(request: HttpRequest) returns (d: Dispatch)
      ensures d == RouterDispatch(router.routeHandlers, request)
    {
      var result := router.Route(request.httpMethod, request.path);
      if result.None? {
        return NotFoundDispatch();
      }
      return result.value;
    }
  }

  /** With an empty table every request gets the default dispatch. */
  lemma EmptyTableIsDefault(request: HttpRequest)
    ensures RouterDispatch([], request) == DefaultDispatch(request)
  {
  }
}
