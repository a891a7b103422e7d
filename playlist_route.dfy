/**
 * The playlist route of the radio app: `GET /api/v3/m3u/:channelid`.
 *
 * The handler picks a channel key out of the `channelid` parameter, looks
 * the key up in the user's channel table, keeps the process-wide token
 * bookkeeping (`resetChTknId`, `tokenExpires`, the user's current channel)
 * up to date, rewrites the fetched playlist and answers 200 or 404.  The
 * channel table, the current time and the fetched playlist text are
 * parameters; the session calls the handler would make are returned as
 * values.
 */
module Playlists {
  import opened Wrappers
  import opened Text
  import opened Bodies
  import opened Responses
  import Routing
  import RouterProperties

  /** Token refresh period in milliseconds: half of eight minutes. */
  const RefreshInterval: int := 480000 / 2

  const PlaylistContentType := "application/x-mpegURL"
  const ChannelRoute := "/api/v3/m3u/:channelid"
  const ChannelRoutePrefix := "/api/v3/m3u/"

  const KeyPath := "key/1"
  const KeyRoute := "/api/v3/key"
  const AudioPrefix := "/api/v3/aac/"
  const TargetDuration10 := "#EXT-X-TARGETDURATION:10"
  const TargetDuration9 := "#EXT-X-TARGETDURATION:9"
  const SegmentDuration10 := "#EXTINF:10,"
  const SegmentDuration1 := "#EXTINF:1,"

  // ---------------------------------------------------------------------------
  // The rewrite

  /** `processPlaylist`: four replace-all steps, in this order. */
  function ProcessPlaylist(list: string, channelId: string): string {
    var keyFixed := ReplaceAll(list, KeyPath, KeyRoute);
    var prefixed := ReplaceAll(keyFixed, channelId, AudioPrefix + channelId);
    var target := ReplaceAll(prefixed, TargetDuration10, TargetDuration9);
    ReplaceAll(target, SegmentDuration10, SegmentDuration1)
  }

  /** Each step cuts the text at every occurrence of its search string and
      glues the pieces back together with its replacement. */
  lemma ProcessPlaylistBySplits(list: string, channelId: string)
    requires channelId != []
    ensures ProcessPlaylist(list, channelId)
            == Join(Split(Join(Split(Join(Split(Join(Split(list, KeyPath), KeyRoute),
                                                 channelId), AudioPrefix + channelId),
                                     TargetDuration10), TargetDuration9),
                         SegmentDuration10), SegmentDuration1)
  {
    var keyFixed := ReplaceAll(list, KeyPath, KeyRoute);
    var prefixed := ReplaceAll(keyFixed, channelId, AudioPrefix + channelId);
    var target := ReplaceAll(prefixed, TargetDuration10, TargetDuration9);
    ReplaceAllIsJoinOfSplit(list, KeyPath, KeyRoute);
    ReplaceAllIsJoinOfSplit(keyFixed, channelId, AudioPrefix + channelId);
    ReplaceAllIsJoinOfSplit(prefixed, TargetDuration10, TargetDuration9);
    ReplaceAllIsJoinOfSplit(target, SegmentDuration10, SegmentDuration1);
  }

  /** A playlist holding none of the four search strings comes back as it
      was.  An empty channel id searches for nothing. */
  lemma ProcessPlaylistUnchanged(list: string, channelId: string)
    requires !Contains(list, KeyPath)
    requires channelId == [] || !Contains(list, channelId)
    requires !Contains(list, TargetDuration10)
    requires !Contains(list, SegmentDuration10)
    ensures ProcessPlaylist(list, channelId) == list
  {
    ReplaceAllAbsent(list, KeyPath, KeyRoute);
    if channelId != [] {
      ReplaceAllAbsent(list, channelId, AudioPrefix + channelId);
    }
    ReplaceAllAbsent(list, TargetDuration10, TargetDuration9);
    ReplaceAllAbsent(list, SegmentDuration10, SegmentDuration1);
  }

  // ---------------------------------------------------------------------------
  // Channel key and the answer

  /** The first piece of `channelid` split on '.', if there is one. */
  function ChannelKey(id: string): (key: Option<string>)
    ensures key.None? <==> forall k :: 0 <= k < |id| ==> id[k] == '.'
    ensures key.Some? ==> key.value != [] && '.' !in key.value
    ensures key.Some? ==>
              var a := LeadingCount(id, '.');
              var n := |key.value|;
              a + n <= |id| && key.value == id[a..a + n] && (a + n == |id| || id[a + n] == '.')
  {
    SplitOmittingEmpty(id, '.');
    var pieces := SplitOmitting(id, '.');
    if pieces == [] then None
    else
      SplitOmittingFirst(id, '.');
      Some(pieces[0])
  }

  /** An id that starts with a dot-free name and then a dot has that name as
      its key. */
  lemma KeyBeforeDot(name: string, id: string)
    requires name != [] && '.' !in name
    requires |name| < |id| && id[..|name|] == name && id[|name|] == '.'
    ensures ChannelKey(id) == Some(name)
  {
    assert id == name + ['.'] + id[|name| + 1..];
    assert id[0] == name[0];
    assert name[0] != '.' by { assert name[0] in name; }
    RunLengthConcat(name, '.', id[|name| + 1..]);
  }

  /** The player asks for `/api/v3/m3u/<channel>.m3u8`: the route binds the
      whole last segment and the key is the channel name before the dot. */
  lemma PlayerPathSelectsChannel(name: string)
    requires name != [] && '.' !in name && '/' !in name
    ensures var params := Routing.MatchParams(ChannelRoute, ChannelRoutePrefix + (name + ".m3u8"));
            params == map["channelid" := name + ".m3u8"] &&
            ChannelKey(params["channelid"]) == Some(name)
  {
    var id := name + ".m3u8";
    RouterProperties.ChannelRouteBinds(id);
    assert id[..|name|] == name;
    assert id[|name|] == '.';
    KeyBeforeDot(name, id);
  }

  /** The channel id the request selects, through the channel table. */
  function SelectedChannel(params: map<string, string>, channels: map<string, string>): (selected: Option<string>)
    ensures selected.Some? <==>
              "channelid" in params && ChannelKey(params["channelid"]).Some? &&
              ChannelKey(params["channelid"]).value in channels
    ensures selected.Some? ==> selected.value == channels[ChannelKey(params["channelid"]).value]
  {
    if "channelid" !in params then None
    else
      match ChannelKey(params["channelid"])
      case None => None
      case Some(key) => if key in channels then Some(channels[key]) else None
  }

  /** The text that is served: the rewrite of the text handed to the fetch
      closure, or nothing when no channel was selected.  `fetched == None`
      stands for the closure's nil argument, which its guard answers by
      leaving the playlist empty. */
  function PlaylistText(params: map<string, string>, channels: map<string, string>, fetched: Option<string>): (playlist: string)
    ensures SelectedChannel(params, channels).None? || fetched.None? ==> playlist == ""
    ensures SelectedChannel(params, channels).Some? && fetched.Some? ==>
              playlist == ProcessPlaylist(fetched.value, SelectedChannel(params, channels).value)
  {
    match SelectedChannel(params, channels)
    case None => ""
    case Some(channelId) => if fetched.Some? then ProcessPlaylist(fetched.value, channelId) else ""
  }

  /** 200 with the playlist as an HLS playlist body when there is any text,
      otherwise 404 with the empty body. */
  function PlaylistResponse(playlist: string): (r: HttpResponse)
    ensures r.statusCode == 200 <==> playlist != ""
    ensures r.statusCode == 200 ==>
              r.content == Ping(playlist, Some(PlaylistContentType)) &&
              r.headers == map["Content-Type" := PlaylistContentType]
    ensures r.statusCode != 200 ==>
              r.statusCode == 404 && r.content == Empty && r.headers == map[]
  {
    if playlist != "" then Ok(Ping(playlist, Some(PlaylistContentType))) else NotFound(None)
  }

  /** A request without a `channelid` parameter is answered 404, whatever
      the table and the fetch. */
  lemma MissingChannelIdIsNotFound(params: map<string, string>, channels: map<string, string>, fetched: Option<string>)
    requires "channelid" !in params
    ensures PlaylistResponse(PlaylistText(params, channels, fetched)) == NotFound(None)
  {
  }

  // ---------------------------------------------------------------------------
  // Token bookkeeping

  /** The refresh test: at least `RefreshInterval` milliseconds since the
      recorded expiry. */
  predicate RefreshDue(now: int, tokenExpires: int) {
    now - tokenExpires >= RefreshInterval
  }

  /** A call to `Session`: for a new channel it also updates the user. */
  datatype SessionCall = SessionCall(channelId: string, updateUser: bool)

  /** The expiry the handler leaves behind for a selected channel. */
  function NextExpiry(storedId: string, tokenExpires: int, channelId: string, now: int): (e: int)
    ensures e == now || e == tokenExpires
    ensures !RefreshDue(now, e)
    ensures storedId != channelId ==> e == now
    ensures storedId == channelId ==> (e == now <== RefreshDue(now, tokenExpires))
    ensures storedId == channelId && !RefreshDue(now, tokenExpires) ==> e == tokenExpires
  {
    var afterReset := if storedId != channelId then now else tokenExpires;
    if RefreshDue(now, afterReset) then now else afterReset
  }

  /** The session calls the handler makes for a selected channel. */
  function SessionCalls(storedId: string, tokenExpires: int, channelId: string, now: int): (calls: seq<SessionCall>)
    ensures SessionCall(channelId, true) in calls <==> storedId != channelId
    ensures SessionCall(channelId, false) in calls <==> storedId == channelId && RefreshDue(now, tokenExpires)
    ensures forall k :: 0 <= k < |calls| ==> calls[k].channelId == channelId
    ensures |calls| <= 1
  {
    var reset := if storedId != channelId then [SessionCall(channelId, true)] else [];
    var afterReset := if storedId != channelId then now else tokenExpires;
    var refresh := if RefreshDue(now, afterReset) then [SessionCall(channelId, false)] else [];
    reset + refresh
  }

  /** The process-wide state the handler updates. */
  class TokenState {
    var resetChTknId: string
    var tokenExpires: int
    var channel: string

    constructor ()
      ensures resetChTknId == "" && tokenExpires == 0 && channel == ""
    {
      resetChTknId := "";
      tokenExpires := 0;
      channel := "";
    }

    /** The playlist handler, with the `channelid` check of the corrected
        channel key. */
    method Handle(params: map<string, string>, channels: map<string, string>, now: int, fetched: Option<string>)
      returns (response: HttpResponse, sessions: seq<SessionCall>)
      modifies this
      ensures response == PlaylistResponse(PlaylistText(params, channels, fetched))
      ensures SelectedChannel(params, channels).None? ==>
                sessions == [] && resetChTknId == old(resetChTknId) &&
                tokenExpires == old(tokenExpires) && channel == old(channel)
      ensures SelectedChannel(params, channels).Some? ==>
                var channelId := SelectedChannel(params, channels).value;
                channel == channelId && resetChTknId == channelId &&
                tokenExpires == NextExpiry(old(resetChTknId), old(tokenExpires), channelId, now) &&
                sessions == SessionCalls(old(resetChTknId), old(tokenExpires), channelId, now)
    {
      sessions := [];
      var playlist := "";
      if "channelid" !in params {
        return NotFound(None), sessions;
      }
      var key := ChannelKey(params["channelid"]);
      if key.Some? && key.value in channels {
        var channelId := channels[key.value];
        channel := channelId;
        if resetChTknId != channelId {
          sessions := sessions + [SessionCall(channelId, true)];
          resetChTknId := channelId;
          tokenExpires := now;
        }
        if RefreshDue(now, tokenExpires) {
          sessions := sessions + [SessionCall(channelId, false)];
          tokenExpires := now;
        }
        if fetched.Some? {
          playlist := ProcessPlaylist(fetched.value, channelId);
        }
      }
      response := PlaylistResponse(playlist);
    }
  }

  /** Two calls for the same channel at the same instant: the second makes no
      session call and leaves the expiry where the first put it. */
  lemma SecondCallIsQuiet(storedId: string, tokenExpires: int, channelId: string, now: int)
    ensures var e := NextExpiry(storedId, tokenExpires, channelId, now);
            SessionCalls(channelId, e, channelId, now) == [] &&
            NextExpiry(channelId, e, channelId, now) == e
  {
  }

  // ---------------------------------------------------------------------------
  // The channel key as written

  /** `channelid.split(separator: ".")[0]` as written: the subscript needs a
      piece, so the caller must supply an id with a character other than '.'. */
  function ChannelKeyAsWritten(id: string): (key: string)
    requires SplitOmitting(id, '.') != []
    ensures ChannelKey(id) == Some(key)
  {
    SplitOmitting(id, '.')[0]
  }

  /** The route admits a request that breaks that requirement: the path
      `/api/v3/m3u/` binds `channelid` to the empty string, which has no
      piece, so the handler as written stops at the subscript.  With the
      corrected key the same request is answered 404. */
  lemma EmptyChannelIdReachesSubscript(channels: map<string, string>, fetched: Option<string>)
    ensures var params := Routing.MatchParams(ChannelRoute, ChannelRoutePrefix);
            params == map["channelid" := ""] &&
            SplitOmitting(params["channelid"], '.') == [] &&
            PlaylistResponse(PlaylistText(params, channels, fetched)) == NotFound(None)
  {
    RouterProperties.ChannelRouteBinds("");
    assert ChannelRoutePrefix + "" == ChannelRoutePrefix;
  }
}
