/**
 * The route table (`HttpRouter`): an ordered list of (method, path,
 * dispatch) entries searched first for an exact (method, path) match and
 * then for a pattern whose `:name` segments bind parts of the path.
 *
 * `Resolve` is the specification of a lookup on the table; the class keeps
 * the table as a sequence field and performs the lookup with the same two
 * loops.
 */
module Routing {
  import opened Wrappers
  import opened Text
  import opened Requests
  import opened Responses

  type Handler = HttpRequest -> HttpResponse

  /** `dispatchHttpReq`: default parameters and the handler. */
  datatype Dispatch = Dispatch(defaults: map<string, string>, handler: Handler)

  datatype RouteEntry = RouteEntry(httpMethod: string, path: string, dispatch: Dispatch)

  // ---------------------------------------------------------------------------
  // Pattern matching

  /** `components(separatedBy: "/")`: empty segments are kept. */
  function Segments(s: string): (parts: seq<string>)
    ensures |parts| >= 1
  {
    Split(s, "/")
  }

  /** A segment that starts with a colon names a parameter. */
  predicate IsParam(segment: string)
  {
    |segment| > 0 && segment[0] == ':'
  }

  /** The segment lists have the same length and agree on every segment that
      is not a parameter. */
  predicate LiteralsAgree(pattern: seq<string>, path: seq<string>)
  {
    |pattern| == |path| && forall k :: 0 <= k < |pattern| && !IsParam(pattern[k]) ==> pattern[k] == path[k]
  }

  /** The segment loop of `matchRoute`: `None` once a literal segment differs,
      otherwise the bindings, a later parameter of the same name
      overwriting an earlier one. */
  function BindSegments(pattern: seq<string>, path: seq<string>): Option<map<string, string>>
    requires |pattern| == |path|
    decreases |pattern|
  {
    if pattern == [] then Some(map[])
    else
      var n := |pattern| - 1;
      match BindSegments(pattern[..n], path[..n])
      case None => None
      case Some(params) =>
        if IsParam(pattern[n]) then Some(params[pattern[n][1..] := path[n]])
        else if pattern[n] != path[n] then None
        else Some(params)
  }

  /** `matchRoute(pattern, path)`: the empty map when the segment counts
      differ or a literal segment differs. */
  function MatchParams(pattern: string, path: string): map<string, string>
  {
    var patternSegments := Segments(pattern);
    var pathSegments := Segments(path);
    if |patternSegments| != |pathSegments| then map[]
    else BindSegments(patternSegments, pathSegments).GetOr(map[])
  }

  // ---------------------------------------------------------------------------
  // Lookup

  predicate IsExact(entry: RouteEntry, httpMethod: string, path: string)
  {
    entry.httpMethod == httpMethod && entry.path == path
  }

  predicate IsPatternFor(entry: RouteEntry, httpMethod: string, path: string)
  {
    entry.httpMethod == httpMethod && MatchParams(entry.path, path) != map[]
  }

  /** The first loop of `route`. */
  function ExactMatch(entries: seq<RouteEntry>, httpMethod: string, path: string): Option<Dispatch>
    decreases |entries|
  {
    if entries == [] then None
    else if IsExact(entries[0], httpMethod, path) then Some(entries[0].dispatch)
    else ExactMatch(entries[1..], httpMethod, path)
  }

  /** The second loop of `route`: the bindings are laid over the entry's
      default parameters. */
  function PatternMatch(entries: seq<RouteEntry>, httpMethod: string, path: string): Option<Dispatch>
    decreases |entries|
  {
    if entries == [] then None
    else if IsPatternFor(entries[0], httpMethod, path) then
      var d := entries[0].dispatch;
      Some(Dispatch(d.defaults + MatchParams(entries[0].path, path), d.handler))
    else PatternMatch(entries[1..], httpMethod, path)
  }

  /** `route(method, path)`. */
  function Resolve(entries: seq<RouteEntry>, httpMethod: string, path: string): Option<Dispatch>
  {
    match ExactMatch(entries, httpMethod, path)
    case Some(d) => Some(d)
    case None => PatternMatch(entries, httpMethod, path)
  }

  /** `routes()`: one "METHOD PATH" line per entry, in registration order. */
  function RouteLines(entries: seq<RouteEntry>): (lines: seq<string>)
    ensures |lines| == |entries|
    ensures forall i :: 0 <= i < |entries| ==> lines[i] == entries[i].httpMethod + " " + entries[i].path
    decreases |entries|
  {
    if entries == [] then []
    else [entries[0].httpMethod + " " + entries[0].path] + RouteLines(entries[1..])
  }

  /** The fallback `([:], { _ in HttpResponse.notFound(nil) })`. */
  function NotFoundDispatch(): (d: Dispatch)
    ensures d.defaults == map[]
    ensures forall request :: d.handler(request) == NotFound(None)
  {
    Dispatch(map[], _ => NotFound(None))
  }

  // ---------------------------------------------------------------------------
  // Facts the methods below rely on

  /** Once a prefix of the segments disagrees, so do all of them. */
  lemma {:induction false} BindMismatchPersists(pattern: seq<string>, path: seq<string>, i: nat)
    requires |pattern| == |path| && i <= |pattern|
    requires BindSegments(pattern[..i], path[..i]) == None
    ensures BindSegments(pattern, path) == None
    decreases |pattern|
  {
    if i < |pattern| {
      var n := |pattern| - 1;
      assert pattern[..n][..i] == pattern[..i];
      assert path[..n][..i] == path[..i];
      BindMismatchPersists(pattern[..n], path[..n], i);
    } else {
      assert pattern[..i] == pattern && path[..i] == path;
    }
  }

  /** The first entry that matches exactly is the one returned. */
  lemma {:induction false} ExactMatchFirst(entries: seq<RouteEntry>, httpMethod: string, path: string, i: nat)
    requires i < |entries| && IsExact(entries[i], httpMethod, path)
    requires forall j :: 0 <= j < i ==> !IsExact(entries[j], httpMethod, path)
    ensures ExactMatch(entries, httpMethod, path) == Some(entries[i].dispatch)
    decreases i
  {
    if i > 0 {
      ExactMatchFirst(entries[1..], httpMethod, path, i - 1);
    }
  }

  /** There is no exact match exactly when no entry matches exactly. */
  lemma {:induction false} ExactMatchNone(entries: seq<RouteEntry>, httpMethod: string, path: string)
    ensures ExactMatch(entries, httpMethod, path).None? <==>
            forall j :: 0 <= j < |entries| ==> !IsExact(entries[j], httpMethod, path)
    decreases |entries|
  {
    if entries != [] {
      ExactMatchNone(entries[1..], httpMethod, path);
      assert forall j :: 1 <= j < |entries| ==> entries[j] == entries[1..][j - 1];
    }
  }

  /** The first entry whose pattern binds something is the one returned, with
      its bindings laid over its defaults. */
  lemma {:induction false} PatternMatchFirst(entries: seq<RouteEntry>, httpMethod: string, path: string, i: nat)
    requires i < |entries| && IsPatternFor(entries[i], httpMethod, path)
    requires forall j :: 0 <= j < i ==> !IsPatternFor(entries[j], httpMethod, path)
    ensures var d := entries[i].dispatch;
            PatternMatch(entries, httpMethod, path) == Some(Dispatch(d.defaults + MatchParams(entries[i].path, path), d.handler))
    decreases i
  {
    if i > 0 {
      PatternMatchFirst(entries[1..], httpMethod, path, i - 1);
    }
  }

  /** There is no pattern match exactly when no entry's pattern binds
      anything for this method. */
  lemma {:induction false} PatternMatchNone(entries: seq<RouteEntry>, httpMethod: string, path: string)
    ensures PatternMatch(entries, httpMethod, path).None? <==>
            forall j :: 0 <= j < |entries| ==> !IsPatternFor(entries[j], httpMethod, path)
    decreases |entries|
  {
    if entries != [] {
      PatternMatchNone(entries[1..], httpMethod, path);
      assert forall j :: 1 <= j < |entries| ==> entries[j] == entries[1..][j - 1];
    }
  }

  // ---------------------------------------------------------------------------
  // The router

  class HttpRouter {
    var routeHandlers: seq<RouteEntry>

    constructor ()
      ensures routeHandlers == []
    {
      routeHandlers := [];
    }

    /** `register`: appends; an earlier entry for the same method and path
        is kept and still wins. */
    method Register(httpMethod: string, path: string, handler: Dispatch)
      modifies this
      ensures routeHandlers == old(routeHandlers) + [RouteEntry(httpMethod, path, handler)]
    {
      routeHandlers := routeHandlers + [RouteEntry(httpMethod, path, handler)];
    }

    function Routes(): (lines: seq<string>)
      reads this
      ensures |lines| == |routeHandlers|
      ensures forall i :: 0 <= i < |routeHandlers| ==>
                lines[i] == routeHandlers[i].httpMethod + " " + routeHandlers[i].path
    {
      RouteLines(routeHandlers)
    }

    method Route(httpMethod: string, path: string) returns (r: Option<Dispatch>)
      ensures r == Resolve(routeHandlers, httpMethod, path)
    {
      var i := 0;
      while i < |routeHandlers|
        invariant 0 <= i <= |routeHandlers|
        invariant forall j :: 0 <= j < i ==> !IsExact(routeHandlers[j], httpMethod, path)
      {
        var route := routeHandlers[i];
        if route.httpMethod == httpMethod && route.path == path {
          ExactMatchFirst(routeHandlers, httpMethod, path, i);
          return Some(route.dispatch);
        }
        i := i + 1;
      }
      ExactMatchNone(routeHandlers, httpMethod, path);
      i := 0;
      while i < |routeHandlers|
        invariant 0 <= i <= |routeHandlers|
        invariant forall j :: 0 <= j < i ==> !IsPatternFor(routeHandlers[j], httpMethod, path)
      {
        var route := routeHandlers[i];
        var params := MatchRoute(route.path, path);
        if route.httpMethod == httpMethod && params != map[] {
          var allParams := MergeParams(route.dispatch.defaults, params);
          PatternMatchFirst(routeHandlers, httpMethod, path, i);
          return Some(Dispatch(allParams, route.dispatch.handler));
        }
        i := i + 1;
      }
      PatternMatchNone(routeHandlers, httpMethod, path);
      return None;
    }

    method MatchRoute(pattern: string, path: string) returns (params: map<string, string>)
      ensures params == MatchParams(pattern, path)
    {
      var patternComponents := Segments(pattern);
      var pathComponents := Segments(path);
      if |patternComponents| != |pathComponents| {
        return map[];
      }
      params := map[];
      var i := 0;
      while i < |patternComponents|
        invariant 0 <= i <= |patternComponents|
        invariant BindSegments(patternComponents[..i], pathComponents[..i]) == Some(params)
      {
        var patternComponent := patternComponents[i];
        var pathComponent := pathComponents[i];
        assert patternComponents[..i + 1][..i] == patternComponents[..i];
        assert pathComponents[..i + 1][..i] == pathComponents[..i];
        if IsParam(patternComponent) {
          params := params[patternComponent[1..] := pathComponent];
        } else if patternComponent != pathComponent {
          BindMismatchPersists(patternComponents, pathComponents, i + 1);
          return map[];
        }
        i := i + 1;
      }
      assert patternComponents[..i] == patternComponents && pathComponents[..i] == pathComponents;
    }
  }

  /** The merge loop of `route`: every binding overwrites a default of the
      same name, in whatever order the bindings are visited. */
  method MergeParams(defaults: map<string, string>, params: map<string, string>) returns (all: map<string, string>)
    ensures all == defaults + params
  {
    all := defaults;
    var remaining := params.Keys;
    while remaining != {}
      invariant remaining <= params.Keys
      invariant all == defaults + (map k | k in params.Keys - remaining :: params[k])
      decreases |remaining|
    {
      var key :| key in remaining;
      ghost var done := map k | k in params.Keys - remaining :: params[k];
      ghost var done' := map k | k in params.Keys - (remaining - {key}) :: params[k];
      assert done' == done[key := params[key]];
      all := all[key := params[key]];
      remaining := remaining - {key};
    }
    assert (map k | k in params.Keys - remaining :: params[k]) == params;
  }
}
