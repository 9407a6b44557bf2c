/** js/app.js: the single-file version of the page, written before the
    code was split into modules. It keeps the same state in top-level
    variables. Where its functions behave as the module versions do, the
    model uses those members for both; this module holds the functions that
    behave differently, each with a lemma saying exactly how. */
module Monolith {
  import opened Wrappers
  import opened Channels
  import opened Dates
  import opened Http
  import opened Urls
  import opened Storage
  import opened AppState
  import opened UiUtils
  import ChannelService
  import ChannelModal
  import Calendar
  import RecordingService

  // ------------------------------------------------------------------
  // selectChannel
  // ------------------------------------------------------------------

  /** `selectChannel(id)` of js/app.js: the id becomes current at once, but
      when no channel has it the function returns before saving, probing
      or fetching. */
  function SelectChannel(s: State, id: string, nowIso: string, o: Outcome): (r: ChannelService.Selection)
    ensures r.state.currentChannelId == Some(id) && Consistent(r.state)
    ensures r.refresh <==> id in Ids(s.channels)
    ensures r.request.Some? <==> r.refresh
    ensures r.refresh ==>
      var c := Find(s.channels, id).value;
      && Persisted(r.state) && c.id == id && r.state.currentChannel == Some(c)
      && r.request == Some(ListUrl(c.host, c.path, nowIso, nowIso))
      && id in r.state.latencies && r.state.latencies[id] == ChannelService.LatencyOf(o)
    ensures !r.refresh ==> r.state.store == s.store && r.state.currentChannel.None?
    ensures r.state.channels == s.channels && SameViewState(r.state, s)
  {
    FindSomeIff(s.channels, id);
    var s1 := s.(currentChannelId := Some(id), currentChannel := Find(s.channels, id));
    if s1.currentChannel.None? then ChannelService.Selection(s1, None, false)
    else
      var p := ChannelService.MeasureLatency(SaveChannels(s1), id, nowIso, o);
      ChannelService.Selection(p.state, p.request, true)
  }

  /** Selecting a listed channel does the same in both versions. Selecting
      an unknown id differs only in the store: the single-file version does
      not write it, so a reload brings back the channel current before. */
  lemma SelectMatchesModules(s: State, id: string, nowIso: string, o: Outcome)
    ensures var a := SelectChannel(s, id, nowIso, o);
      var m := ChannelService.SelectChannel(s, id, nowIso, o);
      && (id in Ids(s.channels) ==> a == m)
      && (id !in Ids(s.channels) ==>
            && a.state == m.state.(store := s.store) && a.refresh == m.refresh == false
            && GetItem(a.state.store, CurrentChannelKey) == GetItem(s.store, CurrentChannelKey)
            && (id != "" ==> GetItem(m.state.store, CurrentChannelKey) == Some(id)))
  {
    FindSomeIff(s.channels, id);
    var s1 := s.(currentChannelId := Some(id), currentChannel := Find(s.channels, id));
    var a := SelectChannel(s, id, nowIso, o);
    var m := ChannelService.SelectChannel(s, id, nowIso, o);
    assert SetCurrentChannel(s, id) == SaveChannels(s1);
    if id in Ids(s.channels) {
      var p := ChannelService.MeasureLatency(SaveChannels(s1), id, nowIso, o);
      assert a == ChannelService.Selection(p.state, p.request, true);
      assert m == ChannelService.Selection(p.state, p.request, true);
    } else {
      assert a == ChannelService.Selection(s1, None, false);
      assert m == ChannelService.Selection(SaveChannels(s1), None, false);
    }
  }

  // ------------------------------------------------------------------
  // deleteChannel
  // ------------------------------------------------------------------

  /** `deleteChannel(id)` of js/app.js: the same deletion, but the
      recordings are fetched only when the deleted channel was the current
      one and another channel took its place. */
  function DeleteChannel(s: State, id: string, confirmed: bool): (r: ChannelService.Deletion)
    ensures id !in Ids(s.channels) || !confirmed ==> r == ChannelService.Deletion(s, false, None)
    ensures id in Ids(s.channels) && confirmed ==>
      && r.state == AppState.DeleteChannel(s, id)
      && (r.refresh <==> s.currentChannelId == Some(id) && |r.state.channels| > 0)
      && r.toast == Some(Find(s.channels, id).value.name + " has been removed")
  {
    match IndexOf(s.channels, id)
    case None =>
      FindSomeIff(s.channels, id);
      ChannelService.Deletion(s, false, None)
    case Some(i) =>
      FindSomeIff(s.channels, id);
      if !confirmed then ChannelService.Deletion(s, false, None)
      else
        var t := AppState.DeleteChannel(s, id);
        ChannelService.Deletion(t, s.currentChannelId == Some(id) && t.currentChannel.Some?,
                                Some(s.channels[i].name + " has been removed"))
  }

  /** Both versions delete the same way; they differ only when a channel
      other than the current one is deleted while one is current: the
      module version fetches the current channel's recordings again, the
      single-file version does not. */
  lemma DeleteMatchesModules(s: State, id: string)
    requires id in Ids(s.channels)
    ensures var a := DeleteChannel(s, id, true);
      var m := ChannelService.DeleteChannel(s, id, true);
      && a.state == m.state && a.toast == m.toast
      && (a.refresh ==> m.refresh)
      && (a.refresh != m.refresh <==> s.currentChannelId != Some(id) && s.currentChannel.Some?)
  {
    FindSomeIff(s.channels, id);
  }

  // ------------------------------------------------------------------
  // saveChannel
  // ------------------------------------------------------------------

  /** The result of a save in js/app.js: the state after, how it ended, the
      toast (none when an edit finds no channel), the latency probe of a
      first channel selected on the spot, whether the dialog closes, and
      whether the recordings are fetched. */
  datatype Saved = Saved(
    state: State,
    outcome: ChannelModal.SaveOutcome,
    toast: Option<Toast>,
    request: Option<string>,
    closed: bool,
    refresh: bool)

  /** The tail of a save that went through: close the dialog, then compare
      the cleared editing id with the current id. `fetched` says whether a
      selection already fetched the recordings. */
  function Close(t: State, outcome: ChannelModal.SaveOutcome, toast: Option<Toast>,
                 request: Option<string>, fetched: bool): (r: Saved)
    ensures r.state == ChannelModal.CloseChannelModal(t) && r.closed
    ensures r.refresh <==> fetched || t.currentChannelId.None?
  {
    Saved(t.(editingChannelId := None), outcome, toast, request, true, fetched || t.currentChannelId.None?)
  }

  /** `saveChannel(e)` of js/app.js. The checks are those of the module
      version. An edit assigns the four fields of the channel with the
      editing id, and announces it only when there is one; the list is
      saved in every case. A first channel added is selected at once,
      before the dialog closes. */
  function SaveChannel(s: State, form: ChannelModal.Form, newId: string, nowIso: string, o: Outcome): (r: Saved)
    ensures var f := ChannelModal.Cleaned(form);
      f.name == "" || f.host == "" || f.path == "" ==>
        r == Saved(s, ChannelModal.Invalid, Some(Toast("Validation Error", "All fields are required", "error")), None, false, false)
    ensures r.outcome == ChannelModal.Invalid <==>
      var f := ChannelModal.Cleaned(form); f.name == "" || f.host == "" || f.path == ""
    ensures r.outcome == ChannelModal.Updated <==>
      var f := ChannelModal.Cleaned(form);
      f.name != "" && f.host != "" && f.path != "" && Truthy(s.editingChannelId)
    ensures r.outcome == ChannelModal.DuplicateName <==>
      var f := ChannelModal.Cleaned(form);
      f.name != "" && f.host != "" && f.path != "" && !Truthy(s.editingChannelId) && HasName(s.channels, f.name)
    ensures r.outcome == ChannelModal.Added <==>
      var f := ChannelModal.Cleaned(form);
      f.name != "" && f.host != "" && f.path != "" && !Truthy(s.editingChannelId) && !HasName(s.channels, f.name)
    ensures r.outcome == ChannelModal.DuplicateName ==> r.state == s && !r.closed && !r.refresh
    ensures r.closed <==> r.outcome == ChannelModal.Updated || r.outcome == ChannelModal.Added
    ensures r.closed ==> Persisted(r.state) && r.state.editingChannelId.None?
    ensures r.outcome == ChannelModal.Updated ==>
      && Truthy(s.editingChannelId)
      && (r.toast.None? <==> Find(s.channels, s.editingChannelId.value).None?)
    ensures r.outcome == ChannelModal.DuplicateName ==>
      r.toast == Some(Toast("Duplicate Name", "A channel with this name already exists", "error"))
    ensures r.outcome == ChannelModal.Updated && r.toast.Some? ==>
      r.toast.value == Toast("Channel Updated", ChannelModal.Cleaned(form).name + " has been updated", "success")
    ensures r.outcome == ChannelModal.Added ==>
      var f := ChannelModal.Cleaned(form);
      && |r.state.channels| == |s.channels| + 1
      && r.state.channels[..|s.channels|] == s.channels
      && r.state.channels[|s.channels|] == Channel(newId, f.name, f.host, f.path, f.useMp4)
      && r.toast == Some(Toast("Channel Added", f.name + " has been created", "success"))
    ensures r.outcome == ChannelModal.Added && |s.channels| > 0 ==>
      && r.state.currentChannelId == s.currentChannelId && r.state.currentChannel == s.currentChannel
      && r.state.latencies == s.latencies
    ensures r.outcome == ChannelModal.Added && |s.channels| == 0 ==>
      var f := ChannelModal.Cleaned(form);
      && r.state.currentChannelId == Some(newId)
      && r.state.currentChannel == Some(Channel(newId, f.name, f.host, f.path, f.useMp4))
      && newId in r.state.latencies && r.state.latencies[newId] == ChannelService.LatencyOf(o)
      && r.request == Some(ListUrl(f.host, f.path, nowIso, nowIso))
      && r.refresh
    ensures r.closed && !(r.outcome == ChannelModal.Added && |s.channels| == 0) ==>
      (r.refresh <==> r.state.currentChannelId.None?)
  {
    var f := ChannelModal.Cleaned(form);
    if f.name == "" || f.host == "" || f.path == "" then
      Saved(s, ChannelModal.Invalid, Some(Toast("Validation Error", "All fields are required", "error")), None, false, false)
    else if Truthy(s.editingChannelId) then SaveEdit(s, f)
    else if HasName(s.channels, f.name) then
      Saved(s, ChannelModal.DuplicateName, Some(Toast("Duplicate Name", "A channel with this name already exists", "error")), None, false, false)
    else SaveNew(s, f, newId, nowIso, o)
  }

  /** The edit branch: the channel with the editing id, if any, takes the
      form's fields; the list is saved either way. */
  function SaveEdit(s: State, f: ChannelModal.Form): (r: Saved)
    requires Truthy(s.editingChannelId)
    ensures r.outcome == ChannelModal.Updated && r.closed && r.request.None?
    ensures r.state.editingChannelId.None? && Persisted(r.state)
    ensures r.toast.None? <==> Find(s.channels, s.editingChannelId.value).None?
    ensures r.toast.Some? ==> r.toast.value == Toast("Channel Updated", f.name + " has been updated", "success")
    ensures r.refresh <==> r.state.currentChannelId.None?
  {
    var id := s.editingChannelId.value;
    var t := UpdateChannel(s, id, ChannelUpdate(Some(f.name), Some(f.host), Some(f.path), Some(f.useMp4)));
    var toast := if Find(s.channels, id).Some? then Some(Toast("Channel Updated", f.name + " has been updated", "success")) else None;
    Close(SaveChannels(t), ChannelModal.Updated, toast, None, false)
  }

  /** The add branch: the channel is appended; when it is the only one it
      is selected on the spot, which probes it and fetches its recordings. */
  function SaveNew(s: State, f: ChannelModal.Form, newId: string, nowIso: string, o: Outcome): (r: Saved)
    ensures r.outcome == ChannelModal.Added && r.closed
    ensures r.state.editingChannelId.None? && Persisted(r.state)
    ensures |r.state.channels| == |s.channels| + 1
    ensures r.state.channels[..|s.channels|] == s.channels
    ensures r.state.channels[|s.channels|] == Channel(newId, f.name, f.host, f.path, f.useMp4)
    ensures r.toast == Some(Toast("Channel Added", f.name + " has been created", "success"))
    ensures |s.channels| > 0 ==>
      && r.state.currentChannelId == s.currentChannelId && r.state.currentChannel == s.currentChannel
      && r.state.latencies == s.latencies && r.request.None?
    ensures |s.channels| == 0 ==>
      && r.state.currentChannelId == Some(newId)
      && r.state.currentChannel == Some(Channel(newId, f.name, f.host, f.path, f.useMp4))
      && newId in r.state.latencies && r.state.latencies[newId] == ChannelService.LatencyOf(o)
      && r.request == Some(ListUrl(f.host, f.path, nowIso, nowIso))
      && r.refresh
    ensures |s.channels| > 0 ==> (r.refresh <==> r.state.currentChannelId.None?)
  {
    var c := Channel(newId, f.name, f.host, f.path, f.useMp4);
    var t := s.(channels := s.channels + [c]);
    var toast := Some(Toast("Channel Added", f.name + " has been created", "success"));
    if |s.channels| == 0 then
      assert t.channels == [c];
      FindHead(t.channels);
      FindSomeIff(t.channels, newId);
      var sel := SelectChannel(t, newId, nowIso, o);
      Close(SaveChannels(sel.state), ChannelModal.Added, toast, sel.request, true)
    else Close(SaveChannels(t), ChannelModal.Added, toast, None, false)
  }

  /** Saving what is already saved changes nothing. */
  lemma SaveChannelsTwice(s: State)
    ensures SaveChannels(SaveChannels(s)) == SaveChannels(s)
  {
    var t := SaveChannels(s);
    assert SaveChannels(t).store == t.store;
  }

  /** How the two saves compare. They end the same way. A later channel
      added, or an edit of a listed channel, gives the same state, toast
      and refresh. An edit whose id is on no channel changes nothing in the
      module version, with an "updated" toast; here it writes the list and
      shows nothing. A first channel is selected here before the dialog
      closes, and by the module version afterwards. */
  lemma SaveMatchesModules(s: State, form: ChannelModal.Form, newId: string, nowIso: string, o: Outcome)
    ensures var a := SaveChannel(s, form, newId, nowIso, o);
      var m := ChannelModal.SaveChannel(s, form, newId);
      && a.outcome == m.outcome
      && (m.outcome == ChannelModal.Invalid || m.outcome == ChannelModal.DuplicateName ==>
            a.state == m.state == s && a.toast == Some(m.toast) && !a.refresh && !m.refresh)
      && (m.outcome == ChannelModal.Added && |s.channels| > 0 ==>
            a.state == m.state && a.toast == Some(m.toast) && a.refresh == m.refresh)
      && (m.outcome == ChannelModal.Added && |s.channels| == 0 ==>
            m.selectAfter == Some(newId) && a.state.currentChannelId == Some(newId))
      && (m.outcome == ChannelModal.Updated && Find(s.channels, s.editingChannelId.value).Some? ==>
            a.state == m.state && a.toast == Some(m.toast) && a.refresh == m.refresh)
      && (m.outcome == ChannelModal.Updated && Find(s.channels, s.editingChannelId.value).None? ==>
            a.state == m.state.(store := SaveChannels(s).store) && a.toast.None? && a.refresh == m.refresh)
  {
    var f := ChannelModal.Cleaned(form);
    if f.name != "" && f.host != "" && f.path != "" {
      if Truthy(s.editingChannelId) {
        EditMatchesModules(s, form, f, newId);
      } else if !HasName(s.channels, f.name) && |s.channels| > 0 {
        AddMatchesModules(s, form, f, newId, nowIso, o);
      }
    }
  }

  lemma AddMatchesModules(s: State, form: ChannelModal.Form, f: ChannelModal.Form, newId: string, nowIso: string, o: Outcome)
    requires f == ChannelModal.Cleaned(form) && f.name != "" && f.host != "" && f.path != ""
    requires !Truthy(s.editingChannelId) && !HasName(s.channels, f.name) && |s.channels| > 0
    ensures var a := SaveNew(s, f, newId, nowIso, o);
      var m := ChannelModal.SaveChannel(s, form, newId);
      a.state == m.state && a.toast == Some(m.toast) && a.refresh == m.refresh
  {
    var c := Channel(newId, f.name, f.host, f.path, f.useMp4);
    assert AddChannel(s, c) == SaveChannels(s.(channels := s.channels + [c]));
  }

  lemma EditMatchesModules(s: State, form: ChannelModal.Form, f: ChannelModal.Form, newId: string)
    requires f == ChannelModal.Cleaned(form) && f.name != "" && f.host != "" && f.path != ""
    requires Truthy(s.editingChannelId)
    ensures var a := SaveEdit(s, f);
      var m := ChannelModal.SaveChannel(s, form, newId);
      && (Find(s.channels, s.editingChannelId.value).Some? ==>
            a.state == m.state && a.toast == Some(m.toast) && a.refresh == m.refresh)
      && (Find(s.channels, s.editingChannelId.value).None? ==>
            a.state == m.state.(store := SaveChannels(s).store) && a.toast.None? && a.refresh == m.refresh)
  {
    var id := s.editingChannelId.value;
    var u := ChannelUpdate(Some(f.name), Some(f.host), Some(f.path), Some(f.useMp4));
    match IndexOf(s.channels, id)
    case None =>
      FindSomeIff(s.channels, id);
    case Some(i) =>
      FindSomeIff(s.channels, id);
      var x := ReplaceChannelAt(s, i, Apply(s.channels[i], u));
      assert UpdateChannel(s, id, u) == SaveChannels(x);
      SaveChannelsTwice(x);
  }

  // ------------------------------------------------------------------
  // Page load
  // ------------------------------------------------------------------

  /** The state after page load, and how many fetches of the recordings
      page load starts. */
  datatype Booted = Booted(state: State, fetches: nat)

  /** Page load of js/app.js: the top-level set-up with its migration and
      the DOMContentLoaded handler's choice of channel (which together do
      what AppState.Init does), then `setToday()`, which fetches when a
      channel is current, and the auto-fetch for a channel with a host and
      a path. None when the stored list cannot be read. */
  function Boot(store: Store, now: DateTime, newId: string): (r: Option<Booted>)
    requires ValidDateTime(now)
    ensures r.None? <==> LoadChannels(store).None?
    ensures r.Some? ==>
      && Consistent(r.value.state)
      && r.value.state.selectedDate == now.date
      && r.value.fetches <= 2
      && (r.value.fetches >= 1 <==> r.value.state.currentChannel.Some?)
      && (r.value.fetches == 2 <==> RecordingService.Usable(r.value.state.currentChannel))
    ensures r.Some? && |r.value.state.channels| > 0 ==> r.value.fetches >= 1
  {
    var s :- Init(store, now.date, newId);
    var st := Calendar.SetToday(s, now);
    var t := st.state;
    Some(Booted(t, (if st.refresh then 1 else 0) + (if RecordingService.Usable(t.currentChannel) then 1 else 0)))
  }

  /** A stored list that is not empty is kept as it is; when the stored
      current id is missing or on no channel, the first channel becomes
      current. */
  lemma BootFallsBackToFirst(store: Store, now: DateTime, newId: string, chs: seq<Channel>)
    requires ValidDateTime(now)
    requires LoadChannels(store) == Some(chs) && |chs| > 0
    requires var id := GetItem(store, CurrentChannelKey); !Truthy(id) || Find(chs, id.value).None?
    ensures var r := Boot(store, now, newId);
      && r.Some? && r.value.state.channels == chs
      && r.value.state.currentChannel == Some(chs[0])
      && r.value.state.currentChannelId == Some(chs[0].id)
      && r.value.fetches >= 1
  {
  }

  /** With no stored channels and a truthy legacy host and path, page load
      makes one channel from them (named after the path), makes it current
      and saves it. */
  lemma BootMigratesLegacy(store: Store, now: DateTime, newId: string)
    requires ValidDateTime(now) && newId != ""
    requires LoadChannels(store) == Some([])
    requires Truthy(GetItem(store, LegacyHostKey)) && Truthy(GetItem(store, LegacyPathKey))
    ensures var host := GetItem(store, LegacyHostKey).value;
      var path := GetItem(store, LegacyPathKey).value;
      var c := Channel(newId, path, host, path, GetItem(store, LegacyMp4Key) == Some("true"));
      var r := Boot(store, now, newId);
      && r.Some? && r.value.state.channels == [c]
      && r.value.state.currentChannel == Some(c)
      && Persisted(r.value.state)
      && r.value.fetches == 2
  {
    var host := GetItem(store, LegacyHostKey).value;
    var path := GetItem(store, LegacyPathKey).value;
    var c := Channel(newId, path, host, path, GetItem(store, LegacyMp4Key) == Some("true"));
    FindHead([c]);
  }
}
