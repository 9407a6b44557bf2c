/** js/services/channelService.js: probing a channel's latency, selecting
    and deleting channels, and the rows of the channel list. Each probe's
    network outcome and timing, the ISO text of "now", and the user's answer
    to the delete confirmation are inputs. */
module ChannelService {
  import opened Wrappers
  import opened Text
  import opened Channels
  import opened Http
  import opened Urls
  import opened AppState
  import opened UiUtils

  /** The latency a probe records: -1 when the request failed, otherwise
      the elapsed milliseconds rounded as Math.round does. Any response,
      whatever its status, counts as reaching the server. */
  function LatencyOf(o: Outcome): (ms: int)
    ensures o.NetworkError? ==> ms == -1
    ensures o.Responded? ==> o.elapsed - 0.5 < ms as real <= o.elapsed + 0.5
    ensures o.Responded? && o.elapsed >= 0.0 ==> ms >= 0
  {
    match o
    case NetworkError => -1
    case Responded(_, elapsed) => JsRound(elapsed)
  }

  /** The outcome of `measureLatency(id)`: the state after, the request sent
      (none when no channel has the id) and the latency returned (null then). */
  datatype Probe = Probe(state: State, request: Option<string>, latency: Option<int>)

  /** `measureLatency(id)`: lists the channel's recordings between now and
      now, and records how long the answer took. */
  function MeasureLatency(s: State, id: string, nowIso: string, o: Outcome): (p: Probe)
    ensures Find(s.channels, id).None? ==> p == Probe(s, None, None)
    ensures Find(s.channels, id).Some? ==>
      var c := Find(s.channels, id).value;
      && p.request == Some(ListUrl(c.host, c.path, nowIso, nowIso))
      && p.latency == Some(LatencyOf(o))
      && id in p.state.latencies && p.state.latencies[id] == LatencyOf(o)
      && (forall k | k in s.latencies && k != id :: k in p.state.latencies && p.state.latencies[k] == s.latencies[k])
      && p.state.(latencies := s.latencies) == s
  {
    match Find(s.channels, id)
    case None => Probe(s, None, None)
    case Some(c) =>
      var ms := LatencyOf(o);
      Probe(SetChannelLatency(s, id, ms), Some(ListUrl(c.host, c.path, nowIso, nowIso)), Some(ms))
  }

  /** A probe asks the recording server about exactly the probed channel's
      path, over the instant "now". */
  lemma ProbeAsksForChannel(s: State, id: string, nowIso: string, o: Outcome)
    requires id in Ids(s.channels)
    ensures var p := MeasureLatency(s, id, nowIso, o);
      var c := Find(s.channels, id).value;
      var u := p.request.value;
      && p.request.Some? && c.id == id
      && |u| >= |c.host| + 6 && u[..|c.host| + 6] == c.host + "/list?"
      && ParseQuery(u[|c.host| + 6..]) == [("path", Some(c.path)), ("start", Some(nowIso)), ("end", Some(nowIso))]
  {
    FindSomeIff(s.channels, id);
    var c := Find(s.channels, id).value;
    var u := ListUrl(c.host, c.path, nowIso, nowIso);
    assert MeasureLatency(s, id, nowIso, o).request == Some(u);
    ListUrlQuery(c.host, c.path, nowIso, nowIso);
  }

  /** What the first k probes of measureAllLatencies have done: only the
      latencies changed, each probe listed its own channel's recordings
      and recorded its latency (when ids are unique), and latencies of ids
      that are not on the list are kept. */
  predicate ProbedUpTo(s: State, r: State, requests: seq<string>, k: nat,
                       nowIsos: seq<string>, outcomes: seq<Outcome>)
    requires k <= |s.channels| == |nowIsos| == |outcomes|
  {
    && r.(latencies := s.latencies) == s
    && |requests| == k
    && (UniqueIds(s.channels) ==> forall j | 0 <= j < k ::
         && requests[j] == ListUrl(s.channels[j].host, s.channels[j].path, nowIsos[j], nowIsos[j])
         && s.channels[j].id in r.latencies && r.latencies[s.channels[j].id] == LatencyOf(outcomes[j]))
    && forall id | id in s.latencies && id !in Ids(s.channels) ::
         id in r.latencies && r.latencies[id] == s.latencies[id]
  }

  /** One more probe extends what the probes so far have done. */
  lemma ProbeStep(s: State, r: State, requests: seq<string>, k: nat,
                  nowIsos: seq<string>, outcomes: seq<Outcome>)
    requires k < |s.channels| == |nowIsos| == |outcomes|
    requires ProbedUpTo(s, r, requests, k, nowIsos, outcomes)
    ensures var p := MeasureLatency(r, s.channels[k].id, nowIsos[k], outcomes[k]);
      p.request.Some? && ProbedUpTo(s, p.state, requests + [p.request.value], k + 1, nowIsos, outcomes)
  {
    var c := s.channels[k];
    assert r.channels == s.channels;
    assert Ids(s.channels)[k] == c.id;
    FindSomeIff(s.channels, c.id);
    var p := MeasureLatency(r, c.id, nowIsos[k], outcomes[k]);
    var rq := requests + [p.request.value];
    if UniqueIds(s.channels) {
      FindUnique(s.channels, k);
      forall j | 0 <= j < k + 1
        ensures rq[j] == ListUrl(s.channels[j].host, s.channels[j].path, nowIsos[j], nowIsos[j])
        ensures s.channels[j].id in p.state.latencies && p.state.latencies[s.channels[j].id] == LatencyOf(outcomes[j])
      {
        if j < k {
          assert s.channels[j].id != c.id;
        }
      }
    }
    forall id | id in s.latencies && id !in Ids(s.channels)
      ensures id in p.state.latencies && p.state.latencies[id] == s.latencies[id]
    {
      assert id != c.id;
    }
  }

  /** `measureAllLatencies()`: probes the channels one after another, in
      list order. `nowIsos[k]` and `outcomes[k]` are the clock reading and
      the network outcome of the k-th probe. */
  method MeasureAllLatencies(s: State, nowIsos: seq<string>, outcomes: seq<Outcome>)
    returns (r: State, requests: seq<string>)
    requires |nowIsos| == |outcomes| == |s.channels|
    ensures r.(latencies := s.latencies) == s
    ensures |requests| == |s.channels|
    ensures UniqueIds(s.channels) ==> forall k | 0 <= k < |s.channels| ::
      && requests[k] == ListUrl(s.channels[k].host, s.channels[k].path, nowIsos[k], nowIsos[k])
      && s.channels[k].id in r.latencies && r.latencies[s.channels[k].id] == LatencyOf(outcomes[k])
    ensures forall id | id in s.latencies && id !in Ids(s.channels) ::
      id in r.latencies && r.latencies[id] == s.latencies[id]
  {
    r := s;
    requests := [];
    var k := 0;
    while k < |s.channels|
      invariant 0 <= k <= |s.channels|
      invariant ProbedUpTo(s, r, requests, k, nowIsos, outcomes)
    {
      ProbeStep(s, r, requests, k, nowIsos, outcomes);
      var p := MeasureLatency(r, s.channels[k].id, nowIsos[k], outcomes[k]);
      r := p.state;
      requests := requests + [p.request.value];
      k := k + 1;
    }
  }

  /** The outcome of `selectChannel(id)`: the state after, the probe sent
      (if any), and whether the recordings are fetched afterwards. */
  datatype Selection = Selection(state: State, request: Option<string>, refresh: bool)

  /** `selectChannel(id)`: the id becomes current; when a channel has it,
      the channel is probed and then its recordings are fetched. An unknown
      id is still recorded as current, with no channel behind it. */
  function SelectChannel(s: State, id: string, nowIso: string, o: Outcome): (r: Selection)
    ensures r.refresh <==> id in Ids(s.channels)
    ensures r.request.Some? <==> r.refresh
    ensures r.state.currentChannelId == Some(id) && Consistent(r.state) && Persisted(r.state)
    ensures r.state.channels == s.channels && SameViewState(r.state, s)
    ensures r.refresh ==>
      && r.state.currentChannel.value.id == id
      && id in r.state.latencies && r.state.latencies[id] == LatencyOf(o)
    ensures !r.refresh ==> r.state.currentChannel.None? && r.state.latencies == s.latencies
    ensures r.refresh ==>
      var c := Find(s.channels, id).value;
      r.request == Some(ListUrl(c.host, c.path, nowIso, nowIso))
  {
    var s1 := SetCurrentChannel(s, id);
    if s1.currentChannel.None? then Selection(s1, None, false)
    else
      FindSomeIff(s.channels, id);
      var p := MeasureLatency(s1, id, nowIso, o);
      Selection(p.state, p.request, true)
  }

  /** The row click handler: a click on the active row does nothing, a
      click on any other row selects its channel. */
  function ClickRow(s: State, id: string, nowIso: string, o: Outcome): (r: Selection)
    ensures s.currentChannelId == Some(id) ==> r == Selection(s, None, false)
    ensures s.currentChannelId != Some(id) ==> r == SelectChannel(s, id, nowIso, o)
    ensures s.currentChannelId != Some(id) ==> r.state.currentChannelId == Some(id)
  {
    if s.currentChannelId == Some(id) then Selection(s, None, false)
    else SelectChannel(s, id, nowIso, o)
  }

  /** Clicking the row of a listed channel that is not current makes it
      current, probes its host for its path at "now", records the latency
      and fetches its recordings. */
  lemma ClickOtherRowProbesIt(s: State, id: string, nowIso: string, o: Outcome)
    requires s.currentChannelId != Some(id) && id in Ids(s.channels)
    ensures var r := ClickRow(s, id, nowIso, o);
      var c := Find(s.channels, id).value;
      && r.refresh && r.request == Some(ListUrl(c.host, c.path, nowIso, nowIso))
      && r.state.currentChannel == Some(c) && r.state.currentChannelId == Some(id)
      && id in r.state.latencies && r.state.latencies[id] == LatencyOf(o)
  {
    FindSomeIff(s.channels, id);
  }

  /** The outcome of `deleteChannel(id)`: the state after, whether the
      recordings are fetched, and the toast shown (none when nothing was
      deleted). */
  datatype Deletion = Deletion(state: State, refresh: bool, toast: Option<string>)

  /** `deleteChannel(id)`: asks for confirmation, deletes, then fetches the
      recordings of whatever channel is current afterwards. An unknown id,
      or a refusal, leaves everything as it was. */
  function DeleteChannel(s: State, id: string, confirmed: bool): (r: Deletion)
    ensures id !in Ids(s.channels) || !confirmed ==> r == Deletion(s, false, None)
    ensures id in Ids(s.channels) && confirmed ==>
      && r.state == AppState.DeleteChannel(s, id)
      && |r.state.channels| == |s.channels| - 1
      && (r.refresh <==> r.state.currentChannel.Some?)
      && r.toast == Some(Find(s.channels, id).value.name + " has been removed")
  {
    match IndexOf(s.channels, id)
    case None =>
      FindSomeIff(s.channels, id);
      Deletion(s, false, None)
    case Some(i) =>
      FindSomeIff(s.channels, id);
      if !confirmed then Deletion(s, false, None)
      else
        var t := AppState.DeleteChannel(s, id);
        Deletion(t, t.currentChannel.Some?, Some(s.channels[i].name + " has been removed"))
  }

  /** A deletion never leaves a current channel behind while channels
      remain but none is current, and deleting the current channel moves
      the selection to the first remaining one. */
  lemma DeleteMovesSelection(s: State, id: string)
    requires Consistent(s) && UniqueIds(s.channels)
    requires s.currentChannelId == Some(id) && id in Ids(s.channels)
    ensures var r := DeleteChannel(s, id, true);
      && (r.refresh <==> |r.state.channels| > 0)
      && (r.refresh ==> r.state.currentChannel == Some(r.state.channels[0]))
      && id !in Ids(r.state.channels)
  {
  }

  /** The latency cell of a channel row: its badge class and its text. No
      latency yet (null) shows "..." with the unknown class. */
  function LatencyCell(lat: Option<int>): (r: (string, string))
    ensures lat.None? ==> r == ("latency-unknown", "...")
    ensures lat.Some? ==> r == (LatencyBadgeClass(lat.value), LatencyText(lat.value))
  {
    match lat
    case None => ("latency-unknown", "...")
    case Some(ms) => (LatencyBadgeClass(ms), LatencyText(ms))
  }

  /** Because `getChannelLatency` reads 0 as null, a channel that answered
      in under half a millisecond shows "..." as if it had never been
      probed, while every other measured latency shows its number. */
  lemma ZeroLatencyShowsPending(s: State, id: string, ms: int)
    ensures var cell := LatencyCell(GetChannelLatency(SetChannelLatency(s, id, ms), id));
      (cell.1 == "..." <==> ms == 0)
  {
    var cell := LatencyCell(GetChannelLatency(SetChannelLatency(s, id, ms), id));
    if ms != 0 {
      assert cell.1 == LatencyText(ms);
      if ms >= 0 {
        assert cell.1[|cell.1| - 2..] == "ms";
      }
    }
  }

  /** One row of the channel list. */
  datatype Row = Row(id: string, name: string, active: bool, badge: string, latency: string,
                     blur: string, path: string, host: string)

  /** What `renderChannels()` shows: a placeholder for an empty list,
      otherwise one row per channel in list order. */
  datatype ListView = NoChannelsYet | Rows(rows: seq<Row>)

  function RowOf(s: State, c: Channel): Row {
    var cell := LatencyCell(GetChannelLatency(s, c.id));
    Row(c.id, c.name, s.currentChannelId == Some(c.id), cell.0, cell.1, BlurClass(s.privacyMode), c.path, c.host)
  }

  function RowsOf(s: State, chs: seq<Channel>): (rows: seq<Row>)
    ensures |rows| == |chs|
    ensures forall k | 0 <= k < |chs| :: rows[k] == RowOf(s, chs[k])
  {
    if chs == [] then [] else [RowOf(s, chs[0])] + RowsOf(s, chs[1..])
  }

  /** `renderChannels()`. */
  function RenderChannels(s: State): (v: ListView)
    ensures v.NoChannelsYet? <==> |s.channels| == 0
    ensures v.Rows? ==>
      && |v.rows| == |s.channels|
      && forall k | 0 <= k < |s.channels| ::
        v.rows[k].id == s.channels[k].id && v.rows[k].name == s.channels[k].name
        && (v.rows[k].active <==> s.currentChannelId == Some(s.channels[k].id))
        && (v.rows[k].badge, v.rows[k].latency) == LatencyCell(GetChannelLatency(s, s.channels[k].id))
        && v.rows[k].blur == BlurClass(s.privacyMode)
        && v.rows[k].path == s.channels[k].path && v.rows[k].host == s.channels[k].host
  {
    if |s.channels| == 0 then NoChannelsYet else Rows(RowsOf(s, s.channels))
  }

  /** With unique ids at most one row is marked active, and it is the
      current channel's row. */
  lemma AtMostOneActiveRow(s: State)
    requires UniqueIds(s.channels) && |s.channels| > 0
    ensures var v := RenderChannels(s);
      forall a, b | 0 <= a < b < |v.rows| :: !(v.rows[a].active && v.rows[b].active)
  {
  }
}
