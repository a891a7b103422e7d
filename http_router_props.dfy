/**
 * Properties of route matching and lookup: what a pattern binds, when it
 * matches at all, which entry a lookup returns, and how registering an
 * entry changes lookups.
 */
module RouterProperties {
  import opened Wrappers
  import opened Text
  import opened Routing

  // ---------------------------------------------------------------------------
  // Binding segments

  /** The segments bind exactly when the literal segments agree. */
  lemma {:induction false} BindSomeIff(pattern: seq<string>, path: seq<string>)
    requires |pattern| == |path|
    ensures BindSegments(pattern, path).Some? <==> LiteralsAgree(pattern, path)
    decreases |pattern|
  {
    if pattern != [] {
      var n := |pattern| - 1;
      BindSomeIff(pattern[..n], path[..n]);
      assert forall k :: 0 <= k < n ==> pattern[..n][k] == pattern[k] && path[..n][k] == path[k];
    }
  }

  /** Every parameter segment binds its name. */
  lemma {:induction false} BindKeyPresent(pattern: seq<string>, path: seq<string>, k: nat)
    requires LiteralsAgree(pattern, path) && k < |pattern| && IsParam(pattern[k])
    ensures BindSegments(pattern, path).Some? && pattern[k][1..] in BindSegments(pattern, path).value
    decreases |pattern|
  {
    var n := |pattern| - 1;
    BindSomeIff(pattern, path);
    BindSomeIff(pattern[..n], path[..n]);
    assert LiteralsAgree(pattern[..n], path[..n]) by {
      assert forall j :: 0 <= j < n ==> pattern[..n][j] == pattern[j] && path[..n][j] == path[j];
    }
    if k < n {
      assert pattern[..n][k] == pattern[k];
      BindKeyPresent(pattern[..n], path[..n], k);
    }
  }

  /** Every bound name comes from a parameter segment. */
  lemma {:induction false} BindKeyDefined(pattern: seq<string>, path: seq<string>, key: string) returns (k: nat)
    requires |pattern| == |path|
    requires BindSegments(pattern, path).Some? && key in BindSegments(pattern, path).value
    ensures k < |pattern| && IsParam(pattern[k]) && pattern[k][1..] == key
    decreases |pattern|
  {
    var n := |pattern| - 1;
    if IsParam(pattern[n]) && pattern[n][1..] == key {
      k := n;
    } else {
      k := BindKeyDefined(pattern[..n], path[..n], key);
      assert pattern[..n][k] == pattern[k];
    }
  }

  /** A name bound by several segments takes the path segment under the last
      of them. */
  lemma {:induction false} BindValueLast(pattern: seq<string>, path: seq<string>, k: nat)
    requires LiteralsAgree(pattern, path) && k < |pattern| && IsParam(pattern[k])
    requires forall j :: k < j < |pattern| && IsParam(pattern[j]) ==> pattern[j][1..] != pattern[k][1..]
    ensures BindSegments(pattern, path).Some?
    ensures pattern[k][1..] in BindSegments(pattern, path).value
    ensures BindSegments(pattern, path).value[pattern[k][1..]] == path[k]
    decreases |pattern|
  {
    BindKeyPresent(pattern, path, k);
    var n := |pattern| - 1;
    if k < n {
      assert LiteralsAgree(pattern[..n], path[..n]) by {
        assert forall j :: 0 <= j < n ==> pattern[..n][j] == pattern[j] && path[..n][j] == path[j];
      }
      assert pattern[..n][k] == pattern[k] && path[..n][k] == path[k];
      assert forall j :: k < j < n ==> pattern[..n][j] == pattern[j];
      BindValueLast(pattern[..n], path[..n], k);
    }
  }

  // ---------------------------------------------------------------------------
  // matchRoute

  /** A name is bound exactly when the segment counts are equal, every
      literal segment equals the path's segment and some parameter segment
      has that name. */
  lemma MatchParamsKeys(pattern: string, path: string, key: string)
    ensures var ps := Segments(pattern);
            var qs := Segments(path);
            key in MatchParams(pattern, path) <==>
              LiteralsAgree(ps, qs) && exists k :: 0 <= k < |ps| && IsParam(ps[k]) && ps[k][1..] == key
  {
    var ps := Segments(pattern);
    var qs := Segments(path);
    if |ps| == |qs| {
      BindSomeIff(ps, qs);
      if key in MatchParams(pattern, path) {
        var k := BindKeyDefined(ps, qs, key);
      }
      forall k | 0 <= k < |ps| && LiteralsAgree(ps, qs) && IsParam(ps[k]) && ps[k][1..] == key
        ensures key in MatchParams(pattern, path)
      {
        BindKeyPresent(ps, qs, k);
      }
    }
  }

  /** The value of a name is the path segment under its last parameter
      segment. */
  lemma MatchParamsValue(pattern: string, path: string, k: nat)
    requires LiteralsAgree(Segments(pattern), Segments(path))
    requires k < |Segments(pattern)| && IsParam(Segments(pattern)[k])
    requires forall j :: k < j < |Segments(pattern)| && IsParam(Segments(pattern)[j]) ==>
               Segments(pattern)[j][1..] != Segments(pattern)[k][1..]
    ensures Segments(pattern)[k][1..] in MatchParams(pattern, path)
    ensures MatchParams(pattern, path)[Segments(pattern)[k][1..]] == Segments(path)[k]
  {
    BindValueLast(Segments(pattern), Segments(path), k);
  }

  /** A pattern without parameter segments binds nothing, so such an entry
      is only ever found by the exact search. */
  lemma LiteralPatternBindsNothing(pattern: string, path: string, httpMethod: string, d: Dispatch)
    requires forall k :: 0 <= k < |Segments(pattern)| ==> !IsParam(Segments(pattern)[k])
    ensures MatchParams(pattern, path) == map[]
    ensures !IsPatternFor(RouteEntry(httpMethod, pattern, d), httpMethod, path)
  {
    forall key
      ensures key !in MatchParams(pattern, path)
    {
      MatchParamsKeys(pattern, path, key);
    }
  }

  /** Segments of a path whose first piece has no slash. */
  lemma SegmentsCons(a: string, rest: string)
    requires '/' !in a
    ensures Segments(a + "/" + rest) == [a] + Segments(rest)
  {
    SplitAtChar(a, '/', rest);
  }

  /** The segments of `/api/v3/m3u/` followed by a final segment. */
  lemma ChannelSegments(last: string)
    requires '/' !in last
    ensures Segments("/api/v3/m3u/" + last) == ["", "api", "v3", "m3u", last]
  {
    var parts := ["", "api", "v3", "m3u", last];
    assert Join(parts[4..], "/") == last;
    assert Join(parts[3..], "/") == "m3u/" + last by { assert parts[3..][1..] == parts[4..]; }
    assert Join(parts[2..], "/") == "v3/m3u/" + last by { assert parts[2..][1..] == parts[3..]; }
    assert Join(parts[1..], "/") == "api/v3/m3u/" + last by { assert parts[1..][1..] == parts[2..]; }
    assert Join(parts, "/") == "/api/v3/m3u/" + last;
    SplitJoinChar(parts, '/');
  }

  /** Identical literal segments bind nothing and do not fail. */
  lemma {:induction false} BindLiterals(segments: seq<string>)
    requires forall k :: 0 <= k < |segments| ==> !IsParam(segments[k])
    ensures BindSegments(segments, segments) == Some(map[])
    decreases |segments|
  {
    if segments != [] {
      var n := |segments| - 1;
      assert forall k :: 0 <= k < n ==> segments[..n][k] == segments[k];
      BindLiterals(segments[..n]);
    }
  }

  /** The playlist route binds whatever final segment the path has, the
      empty one included, to `channelid`. */
  lemma ChannelRouteBinds(id: string)
    requires '/' !in id
    ensures MatchParams("/api/v3/m3u/:channelid", "/api/v3/m3u/" + id) == map["channelid" := id]
  {
    ChannelPatternSegments();
    ChannelSegments(id);
    ChannelSegmentsBind(id);
  }

  lemma ChannelPatternSegments()
    ensures Segments("/api/v3/m3u/:channelid") == ["", "api", "v3", "m3u", ":channelid"]
  {
    ChannelSegments(":channelid");
    assert "/api/v3/m3u/:channelid" == "/api/v3/m3u/" + ":channelid";
  }

  lemma ChannelSegmentsBind(id: string)
    ensures BindSegments(["", "api", "v3", "m3u", ":channelid"], ["", "api", "v3", "m3u", id])
            == Some(map["channelid" := id])
  {
    var ps := ["", "api", "v3", "m3u", ":channelid"];
    var qs := ["", "api", "v3", "m3u", id];
    var literals := ["", "api", "v3", "m3u"];
    assert ps[..4] == literals && qs[..4] == literals;
    BindLiterals(literals);
    BindParamLast(ps, qs, map[]);
    assert ps[4][1..] == "channelid";
  }

  /** A final parameter segment adds its binding to those of the segments
      before it. */
  lemma BindParamLast(pattern: seq<string>, path: seq<string>, params: map<string, string>)
    requires |pattern| == |path| > 0
    requires var n := |pattern| - 1;
             IsParam(pattern[n]) && BindSegments(pattern[..n], path[..n]) == Some(params)
    ensures var n := |pattern| - 1;
            BindSegments(pattern, path) == Some(params[pattern[n][1..] := path[n]])
  {
  }

  // ---------------------------------------------------------------------------
  // route

  /** A lookup finds nothing exactly when no entry matches exactly and no
      entry's pattern binds anything for this method. */
  lemma ResolveNoneIff(entries: seq<RouteEntry>, httpMethod: string, path: string)
    ensures Resolve(entries, httpMethod, path).None? <==>
            forall j :: 0 <= j < |entries| ==>
              !IsExact(entries[j], httpMethod, path) && !IsPatternFor(entries[j], httpMethod, path)
  {
    ExactMatchNone(entries, httpMethod, path);
    PatternMatchNone(entries, httpMethod, path);
  }

  /** The first exact entry wins, even over an earlier entry whose pattern
      matches. */
  lemma ResolvePrefersExact(entries: seq<RouteEntry>, httpMethod: string, path: string, i: nat)
    requires i < |entries| && IsExact(entries[i], httpMethod, path)
    requires forall j :: 0 <= j < i ==> !IsExact(entries[j], httpMethod, path)
    ensures Resolve(entries, httpMethod, path) == Some(entries[i].dispatch)
  {
    ExactMatchFirst(entries, httpMethod, path, i);
  }

  /** Without an exact entry, the first matching pattern wins; its bindings
      override its defaults and the other defaults are kept. */
  lemma ResolveByPattern(entries: seq<RouteEntry>, httpMethod: string, path: string, i: nat)
    requires forall j :: 0 <= j < |entries| ==> !IsExact(entries[j], httpMethod, path)
    requires i < |entries| && IsPatternFor(entries[i], httpMethod, path)
    requires forall j :: 0 <= j < i ==> !IsPatternFor(entries[j], httpMethod, path)
    ensures var r := Resolve(entries, httpMethod, path);
            var params := MatchParams(entries[i].path, path);
            var d := entries[i].dispatch;
            && r.Some? && r.value.handler == d.handler
            && (forall k :: k in params ==> k in r.value.defaults && r.value.defaults[k] == params[k])
            && (forall k :: k in d.defaults && k !in params ==> k in r.value.defaults && r.value.defaults[k] == d.defaults[k])
            && (forall k :: k in r.value.defaults ==> k in params || k in d.defaults)
  {
    ExactMatchNone(entries, httpMethod, path);
    PatternMatchFirst(entries, httpMethod, path, i);
  }

  lemma {:induction false} ExactMatchAppend(entries: seq<RouteEntry>, e: RouteEntry, httpMethod: string, path: string)
    ensures ExactMatch(entries + [e], httpMethod, path) ==
            if ExactMatch(entries, httpMethod, path).Some? then ExactMatch(entries, httpMethod, path)
            else if IsExact(e, httpMethod, path) then Some(e.dispatch)
            else None
    decreases |entries|
  {
    if entries != [] {
      assert (entries + [e])[1..] == entries[1..] + [e];
      ExactMatchAppend(entries[1..], e, httpMethod, path);
    } else {
      assert (entries + [e])[1..] == [];
    }
  }

  lemma {:induction false} PatternMatchAppend(entries: seq<RouteEntry>, e: RouteEntry, httpMethod: string, path: string)
    ensures PatternMatch(entries + [e], httpMethod, path) ==
            if PatternMatch(entries, httpMethod, path).Some? then PatternMatch(entries, httpMethod, path)
            else PatternMatch([e], httpMethod, path)
    decreases |entries|
  {
    if entries != [] {
      assert (entries + [e])[1..] == entries[1..] + [e];
      PatternMatchAppend(entries[1..], e, httpMethod, path);
    }
  }

  /** Registering an entry leaves every lookup that already had an exact
      answer unchanged (so registering a method and path twice keeps the
      first handler); an exact new entry takes over a lookup that was
      answered by a pattern; otherwise an answered lookup is unchanged. */
  lemma ResolveAfterRegister(entries: seq<RouteEntry>, e: RouteEntry, httpMethod: string, path: string)
    ensures ExactMatch(entries, httpMethod, path).Some? ==>
              Resolve(entries + [e], httpMethod, path) == Resolve(entries, httpMethod, path)
    ensures ExactMatch(entries, httpMethod, path).None? && IsExact(e, httpMethod, path) ==>
              Resolve(entries + [e], httpMethod, path) == Some(e.dispatch)
    ensures !IsExact(e, httpMethod, path) && Resolve(entries, httpMethod, path).Some? ==>
              Resolve(entries + [e], httpMethod, path) == Resolve(entries, httpMethod, path)
  {
    ExactMatchAppend(entries, e, httpMethod, path);
    PatternMatchAppend(entries, e, httpMethod, path);
  }

  /** `routes()` after a registration lists one more line at the end. */
  lemma RouteLinesAppend(entries: seq<RouteEntry>, e: RouteEntry)
    ensures RouteLines(entries + [e]) == RouteLines(entries) + [e.httpMethod + " " + e.path]
  {
  }
}
