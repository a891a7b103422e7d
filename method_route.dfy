/**
 * `MethodRoute`: a view of the shared route table under one HTTP method.
 */
module MethodRoutes {
  import opened Wrappers
  import opened Routing
  import RouterProperties

  class MethodRoute {
    const httpMethod: string
    const router: HttpRouter

    constructor (httpMethod: string, router: HttpRouter)
      ensures this.httpMethod == httpMethod && this.router == router
    {
      this.httpMethod := httpMethod;
      this.router := router;
    }

    /** `register(path, handler)`: an entry under this method, appended to
        the shared table. */
    method Register(path: string, handler: Dispatch)
      modifies router
      ensures router.routeHandlers == old(router.routeHandlers) + [RouteEntry(httpMethod, path, handler)]
    {
      router.Register(httpMethod, path, handler);
    }

    /** The subscript getter: the router's answer for this method, or the
        404 dispatch. */
    method Get(path: string) returns (d: Dispatch)
      ensures d == Resolve(router.routeHandlers, httpMethod, path).GetOr(NotFoundDispatch())
    {
      var found := router.Route(httpMethod, path);
      d := if found.Some? then found.value else NotFoundDispatch();
    }

    /** The subscript setter appends as well; it never replaces an entry. */
    method Set(path: string, newValue: Dispatch)
      modifies router
      ensures router.routeHandlers == old(router.routeHandlers) + [RouteEntry(httpMethod, path, newValue)]
    {
      router.Register(httpMethod, path, newValue);
    }
  }

  /** Setting the same literal path twice under one method: a lookup of that
      path answers with the first handler, unless an earlier entry already
      answered it exactly. */
  lemma SetTwiceKeepsFirst(entries: seq<RouteEntry>, httpMethod: string, path: string, first: Dispatch, second: Dispatch)
    requires ExactMatch(entries, httpMethod, path).None?
    ensures Resolve(entries + [RouteEntry(httpMethod, path, first)] + [RouteEntry(httpMethod, path, second)], httpMethod, path)
            == Some(first)
  {
    var once := entries + [RouteEntry(httpMethod, path, first)];
    RouterProperties.ResolveAfterRegister(entries, RouteEntry(httpMethod, path, first), httpMethod, path);
    RouterProperties.ExactMatchAppend(entries, RouteEntry(httpMethod, path, first), httpMethod, path);
    RouterProperties.ResolveAfterRegister(once, RouteEntry(httpMethod, path, second), httpMethod, path);
  }

  /** An entry registered under another method never changes a lookup. */
  lemma OtherMethodIgnored(entries: seq<RouteEntry>, e: RouteEntry, httpMethod: string, path: string)
    requires e.httpMethod != httpMethod
    ensures Resolve(entries + [e], httpMethod, path) == Resolve(entries, httpMethod, path)
  {
    RouterProperties.ExactMatchAppend(entries, e, httpMethod, path);
    RouterProperties.PatternMatchAppend(entries, e, httpMethod, path);
  }
}
