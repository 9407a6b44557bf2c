/** js/services/recordingService.js: asking the recording server for the
    recordings in the filter window, and rendering the playlist. The
    network outcome and the browser's local-to-UTC conversion
    (`Date.prototype.toISOString` of a local time) are inputs. */
module RecordingService {
  import opened Wrappers
  import opened Text
  import opened Channels
  import opened Recordings
  import opened Dates
  import opened Http
  import opened Urls
  import opened AppState
  import UiUtils

  /** What the playlist area shows. */
  datatype PlaylistView =
    | NoChannelSelected
    | NotFoundOnDate
    | Clips(items: seq<Recording>)
    | ConnectionFailed

  /** The playlist after `renderPlaylist(items)`: the state (whose cache
      changes), the view, and the text of the clip-count badge. */
  datatype Rendered = Rendered(state: State, view: PlaylistView, badge: string)

  /** `renderPlaylist(items)`: the array is cached and then sorted in
      place, so the cache ends up holding the sorted items; the badge
      counts them. */
  function RenderPlaylist(s: State, items: seq<Recording>): (r: Rendered)
    ensures r.state.(cachedRecordings := s.cachedRecordings) == s
    ensures SortedNewestFirst(r.state.cachedRecordings)
    ensures multiset(r.state.cachedRecordings) == multiset(items)
    ensures r.view == NotFoundOnDate <==> |items| == 0
    ensures |items| > 0 ==> r.view == Clips(r.state.cachedRecordings)
    ensures r.badge == NatToString(|items|) + " Clips"
  {
    if |items| == 0 then Rendered(SetCachedRecordings(s, items), NotFoundOnDate, "0 Clips")
    else
      var sorted := SortNewestFirst(items);
      Rendered(SetCachedRecordings(s, sorted), Clips(sorted), NatToString(|items|) + " Clips")
  }

  /** `renderRecordings()`: re-renders the cached playlist when it is not
      empty, and re-applies the blur to the playing URL when one is shown.
      `urlBlur` is None when no URL is displayed. */
  datatype Rerendered = Rerendered(state: State, playlist: Option<Rendered>, urlBlur: Option<bool>)

  function RenderRecordings(s: State): (r: Rerendered)
    ensures r.playlist.Some? <==> |s.cachedRecordings| > 0
    ensures r.playlist.Some? ==> r.playlist.value.view == Clips(r.state.cachedRecordings)
    ensures r.urlBlur.Some? <==> s.currentStreamUrl != ""
    ensures r.urlBlur.Some? ==> r.urlBlur.value == s.privacyMode
  {
    var blur := if s.currentStreamUrl != "" then Some(s.privacyMode) else None;
    if |s.cachedRecordings| > 0 then
      var p := RenderPlaylist(s, s.cachedRecordings);
      Rerendered(p.state, Some(p), blur)
    else Rerendered(s, None, blur)
  }

  /** Re-rendering a playlist that `renderPlaylist` produced leaves the
      state as it is: the cache is already newest-first. */
  lemma RerenderKeepsState(s: State, items: seq<Recording>)
    ensures var t := RenderPlaylist(s, items).state; RenderRecordings(t).state == t
  {
    var t := RenderPlaylist(s, items).state;
    SortSortedIsIdentity(t.cachedRecordings);
  }

  /** The result of `fetchRecordings()`: the state after, the request sent
      (if one was), the view, the badge text when the playlist was
      rendered, the toast shown, and whether the "last refreshed" time is
      stamped. */
  datatype Fetch = Fetch(state: State, request: Option<string>, view: PlaylistView,
                         badge: Option<string>, toast: Option<UiUtils.Toast>, stamped: bool)

  const FailureToast := UiUtils.Toast("Error", "Failed to fetch recordings. Check console.", "error")

  /** The current channel, when it has both a host and a path. */
  predicate Usable(c: Option<Channel>) {
    c.Some? && c.value.host != "" && c.value.path != ""
  }

  /** The two filter inputs read as local times and converted to UTC text. */
  function FilterWindow(s: State, toUtcIso: DateTime -> string): (r: Option<(string, string)>)
    ensures r.Some? <==> ParseLocal(s.filterStart).Some? && ParseLocal(s.filterEnd).Some?
    ensures r.Some? ==> r.value == (toUtcIso(ParseLocal(s.filterStart).value), toUtcIso(ParseLocal(s.filterEnd).value))
  {
    match (ParseLocal(s.filterStart), ParseLocal(s.filterEnd))
    case (Some(a), Some(b)) => Some((toUtcIso(a), toUtcIso(b)))
    case _ => None
  }

  function Failed(s: State, request: Option<string>): Fetch {
    Fetch(s, request, ConnectionFailed, None, Some(FailureToast), true)
  }

  /** `fetchRecordings()`. Without a usable channel nothing is requested.
      A filter value that is not a date makes `toISOString` throw before
      any request. A 404 renders the empty playlist silently; any other
      non-2xx status, a network failure or a body that is not JSON shows
      the failure and leaves the cache as it was. */
  function FetchRecordings(s: State, toUtcIso: DateTime -> string, o: Outcome): (r: Fetch)
    ensures !Usable(s.currentChannel) ==> r == Fetch(s, None, NoChannelSelected, None, None, false)
    ensures r.stamped <==> Usable(s.currentChannel)
    ensures r.request.Some? <==> Usable(s.currentChannel) && FilterWindow(s, toUtcIso).Some?
    ensures r.request.Some? ==>
      var c := s.currentChannel.value;
      var w := FilterWindow(s, toUtcIso).value;
      r.request.value == ListUrl(c.host, c.path, w.0, w.1)
    ensures r.view == ConnectionFailed <==> r.toast == Some(FailureToast)
    ensures r.view == ConnectionFailed <==>
      && Usable(s.currentChannel)
      && (|| FilterWindow(s, toUtcIso).None?
          || o.NetworkError?
          || (o.response.status != 404 && !IsOk(o.response.status))
          || (IsOk(o.response.status) && o.response.body.Unparseable?))
    ensures Usable(s.currentChannel) && FilterWindow(s, toUtcIso).Some? && o.Responded? && o.response.status == 404 ==>
      var p := RenderPlaylist(s, []);
      r.state == p.state && r.view == p.view && r.badge == Some(p.badge) && r.toast.None?
    ensures Usable(s.currentChannel) && FilterWindow(s, toUtcIso).Some? && o.Responded?
            && IsOk(o.response.status) && o.response.body.Items? ==>
      var xs := o.response.body.items;
      var p := RenderPlaylist(s, xs);
      && r.state == p.state && r.view == p.view && r.badge == Some(p.badge)
      && r.toast == Some(UiUtils.Toast("Sync Complete", "Found " + NatToString(|xs|) + " recordings", "success"))
    ensures r.view == ConnectionFailed ==> r.state == s
    ensures r.view.Clips? || r.view == NotFoundOnDate ==>
      && r.request.Some? && o.Responded? && (o.response.status == 404 || IsOk(o.response.status))
      && r.badge.Some?
  {
    var c := s.currentChannel;
    if !Usable(c) then Fetch(s, None, NoChannelSelected, None, None, false)
    else
      match FilterWindow(s, toUtcIso)
      case None => Failed(s, None)
      case Some(w) =>
        var url := ListUrl(c.value.host, c.value.path, w.0, w.1);
        match o
        case NetworkError => Failed(s, Some(url))
        case Responded(resp, _) =>
          if resp.status == 404 then
            var p := RenderPlaylist(s, []);
            Fetch(p.state, Some(url), p.view, Some(p.badge), None, true)
          else if !IsOk(resp.status) then Failed(s, Some(url))
          else
            match resp.body
            case Unparseable => Failed(s, Some(url))
            case Items(xs) =>
              var p := RenderPlaylist(s, xs);
              Fetch(p.state, Some(url), p.view, Some(p.badge),
                    Some(UiUtils.Toast("Sync Complete", "Found " + NatToString(|xs|) + " recordings", "success")), true)
  }

  /** The request asks for exactly the current channel's path over the
      filter window, converted to UTC. */
  lemma FetchAsksForFilterWindow(s: State, toUtcIso: DateTime -> string, o: Outcome)
    requires Usable(s.currentChannel) && FilterWindow(s, toUtcIso).Some?
    ensures var r := FetchRecordings(s, toUtcIso, o);
      var c := s.currentChannel.value;
      var w := FilterWindow(s, toUtcIso).value;
      var u := r.request.value;
      && r.request.Some?
      && |u| >= |c.host| + 6 && u[..|c.host| + 6] == c.host + "/list?"
      && ParseQuery(u[|c.host| + 6..]) == [("path", Some(c.path)), ("start", Some(w.0)), ("end", Some(w.1))]
  {
    var c := s.currentChannel.value;
    var w := FilterWindow(s, toUtcIso).value;
    ListUrlQuery(c.host, c.path, w.0, w.1);
  }

  /** A 404 looks exactly like an empty 200 answer, except that only the
      latter announces "Found 0 recordings". */
  lemma NotFoundIsEmptyList(s: State, toUtcIso: DateTime -> string, body: Body, e1: real, e2: real)
    requires Usable(s.currentChannel) && FilterWindow(s, toUtcIso).Some?
    ensures var a := FetchRecordings(s, toUtcIso, Responded(Response(404, body), e1));
      var b := FetchRecordings(s, toUtcIso, Responded(Response(200, Items([])), e2));
      && a.state == b.state && a.view == b.view == NotFoundOnDate && a.badge == b.badge == Some("0 Clips")
      && a.toast.None? && b.toast == Some(UiUtils.Toast("Sync Complete", "Found 0 recordings", "success"))
  {
    NotFoundRenders(s, toUtcIso, body, e1);
    EmptyListRenders(s, toUtcIso, e2);
  }

  lemma ZeroText()
    ensures NatToString(0) == "0"
    ensures NatToString(0) + " Clips" == "0 Clips"
    ensures "Found " + NatToString(0) + " recordings" == "Found 0 recordings"
  {
  }

  lemma NotFoundRenders(s: State, toUtcIso: DateTime -> string, body: Body, e: real)
    requires Usable(s.currentChannel) && FilterWindow(s, toUtcIso).Some?
    ensures var a := FetchRecordings(s, toUtcIso, Responded(Response(404, body), e));
      && a.state == RenderPlaylist(s, []).state && a.view == NotFoundOnDate
      && a.badge == Some("0 Clips") && a.toast.None?
  {
    ZeroText();
  }

  lemma EmptyListRenders(s: State, toUtcIso: DateTime -> string, e: real)
    requires Usable(s.currentChannel) && FilterWindow(s, toUtcIso).Some?
    ensures var b := FetchRecordings(s, toUtcIso, Responded(Response(200, Items([])), e));
      && b.state == RenderPlaylist(s, []).state && b.view == NotFoundOnDate
      && b.badge == Some("0 Clips")
      && b.toast == Some(UiUtils.Toast("Sync Complete", "Found 0 recordings", "success"))
  {
    ZeroText();
    var none: seq<Recording> := [];
    assert |none| == 0;
  }

  /** After a failed fetch the cache still holds the previous playlist, so
      the next re-render (a privacy toggle) replaces the failure message
      with the clips of the earlier answer. */
  lemma FailureKeepsStaleCache(s: State, toUtcIso: DateTime -> string, o: Outcome)
    requires |s.cachedRecordings| > 0
    requires FetchRecordings(s, toUtcIso, o).view == ConnectionFailed
    ensures var t := FetchRecordings(s, toUtcIso, o).state;
      RenderRecordings(t).playlist.Some? && RenderRecordings(t).playlist.value.view.Clips?
      && multiset(RenderRecordings(t).playlist.value.view.items) == multiset(s.cachedRecordings)
  {
  }
}
