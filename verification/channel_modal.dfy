/** js/components/channelModal.js: the add/edit channel dialog, its
    connection test and its save. The form's field values, the clock
    (`Date.now()` for a new id, today's date for the test window), the
    local-to-UTC conversion and the test request's outcome are inputs. */
module ChannelModal {
  import opened Wrappers
  import opened Text
  import opened Channels
  import opened Dates
  import opened Http
  import opened Urls
  import opened Storage
  import opened AppState
  import opened UiUtils

  /** The four form fields as the user left them. */
  datatype Form = Form(name: string, host: string, path: string, useMp4: bool)

  /** The dialog as shown: its title, its fields and its save button. */
  datatype Dialog = Dialog(title: string, form: Form, saveLabel: string)

  const DefaultHost := "http://localhost:9996"

  /** `openChannelModal(channelId)`: the id is recorded as being edited in
      any case. A truthy id of a channel opens "Edit Channel" filled with
      that channel; a truthy id that finds nothing opens no dialog at all;
      no id opens an empty "Add New Channel" form with the default host. */
  function OpenChannelModal(s: State, id: Option<string>): (r: (State, Option<Dialog>))
    ensures r.0 == s.(editingChannelId := id)
    ensures !Truthy(id) ==> r.1 == Some(Dialog("Add New Channel", Form("", DefaultHost, "", false), "Save Channel"))
    ensures Truthy(id) ==> (r.1.Some? <==> id.value in Ids(s.channels))
    ensures Truthy(id) && r.1.Some? ==>
      var c := Find(s.channels, id.value).value;
      && c.id == id.value
      && r.1.value == Dialog("Edit Channel", Form(c.name, c.host, c.path, c.useMp4), "Update Channel")
  {
    var t := s.(editingChannelId := id);
    if Truthy(id) then
      FindSomeIff(s.channels, id.value);
      match Find(s.channels, id.value)
      case None => (t, None)
      case Some(c) => (t, Some(Dialog("Edit Channel", Form(c.name, c.host, c.path, c.useMp4), "Update Channel")))
    else (t, Some(Dialog("Add New Channel", Form("", DefaultHost, "", false), "Save Channel")))
  }

  /** `closeChannelModal()`: nothing is being edited any more. */
  function CloseChannelModal(s: State): (r: State)
    ensures r.editingChannelId.None?
    ensures r.(editingChannelId := s.editingChannelId) == s
  {
    s.(editingChannelId := None)
  }

  // ------------------------------------------------------------------
  // saveChannel
  // ------------------------------------------------------------------

  /** The form as saveChannel reads it: every field trimmed, and one
      trailing '/' removed from the host. */
  function Cleaned(f: Form): (r: Form)
    ensures r.name == Trim(f.name) && r.path == Trim(f.path) && r.useMp4 == f.useMp4
    ensures Trim(f.host) == r.host + "/" || (r.host == Trim(f.host) && !EndsWith(Trim(f.host), "/"))
  {
    Form(Trim(f.name), StripTrailingSlash(Trim(f.host)), Trim(f.path), f.useMp4)
  }

  /** How a save ended. */
  datatype SaveOutcome = Invalid | DuplicateName | Updated | Added

  /** The result of a save: the state after, how it ended, the toast, the
      id of a first channel that gets selected afterwards, whether the
      dialog closes, and whether the recordings are fetched again. */
  datatype Saved = Saved(
    state: State,
    outcome: SaveOutcome,
    toast: Toast,
    selectAfter: Option<string>,
    closed: bool,
    refresh: bool)

  /** `saveChannel(e)`. An empty name, host or path (after cleaning) is
      refused. With a truthy editing id the channel with that id takes the
      form's values (the toast says "updated" even when no channel has that
      id). Otherwise a name already on the list is refused, and a new
      channel with id `newId` is appended; when it is the only channel it
      is selected afterwards. The dialog then closes, which clears the
      editing id before the "edited the current channel?" comparison, so
      the recordings are fetched again exactly when no channel id is
      current. */
  function SaveChannel(s: State, form: Form, newId: string): (r: Saved)
    ensures var f := Cleaned(form);
      f.name == "" || f.host == "" || f.path == "" ==>
        r == Saved(s, Invalid, Toast("Validation Error", "All fields are required", "error"), None, false, false)
    ensures r.outcome == Invalid <==>
      var f := Cleaned(form); f.name == "" || f.host == "" || f.path == ""
    ensures r.outcome == Added <==>
      var f := Cleaned(form);
      f.name != "" && f.host != "" && f.path != "" && !Truthy(s.editingChannelId) && !HasName(s.channels, f.name)
    ensures r.outcome == DuplicateName <==>
      var f := Cleaned(form);
      f.name != "" && f.host != "" && f.path != "" && !Truthy(s.editingChannelId) && HasName(s.channels, f.name)
    ensures r.outcome == DuplicateName ==> r.state == s && !r.closed && !r.refresh
    ensures r.outcome == Updated <==>
      var f := Cleaned(form);
      f.name != "" && f.host != "" && f.path != "" && Truthy(s.editingChannelId)
    ensures r.outcome == Updated ==>
      var f := Cleaned(form);
      var id := s.editingChannelId.value;
      && r.state == CloseChannelModal(UpdateChannel(s, id, ChannelUpdate(Some(f.name), Some(f.host), Some(f.path), Some(f.useMp4))))
      && r.selectAfter.None?
    ensures r.outcome == Updated ==>
      r.toast == Toast("Channel Updated", Cleaned(form).name + " has been updated", "success")
    ensures r.outcome == DuplicateName ==>
      r.toast == Toast("Duplicate Name", "A channel with this name already exists", "error")
    ensures r.outcome == Added ==>
      var f := Cleaned(form);
      && r.state == CloseChannelModal(AddChannel(s, Channel(newId, f.name, f.host, f.path, f.useMp4)))
      && r.toast == Toast("Channel Added", f.name + " has been created", "success")
    ensures r.outcome == Added ==>
      var f := Cleaned(form);
      && |r.state.channels| == |s.channels| + 1
      && r.state.channels[|s.channels|] == Channel(newId, f.name, f.host, f.path, f.useMp4)
      && (r.selectAfter.Some? <==> |s.channels| == 0)
      && (r.selectAfter.Some? ==> r.selectAfter.value == newId)
    ensures r.closed <==> r.outcome == Updated || r.outcome == Added
    ensures r.closed ==> r.state.editingChannelId.None?
    ensures r.outcome == Added ==> Persisted(r.state)
    ensures r.closed ==> (r.refresh <==> r.state.currentChannelId.None?)
  {
    var f := Cleaned(form);
    if f.name == "" || f.host == "" || f.path == "" then
      Saved(s, Invalid, Toast("Validation Error", "All fields are required", "error"), None, false, false)
    else if Truthy(s.editingChannelId) then
      var t := UpdateChannel(s, s.editingChannelId.value, ChannelUpdate(Some(f.name), Some(f.host), Some(f.path), Some(f.useMp4)));
      var toast := Toast("Channel Updated", f.name + " has been updated", "success");
      Finish(t, Updated, toast, None)
    else if HasName(s.channels, f.name) then
      Saved(s, DuplicateName, Toast("Duplicate Name", "A channel with this name already exists", "error"), None, false, false)
    else
      var t := AddChannel(s, Channel(newId, f.name, f.host, f.path, f.useMp4));
      var toast := Toast("Channel Added", f.name + " has been created", "success");
      Finish(t, Added, toast, if |t.channels| == 1 then Some(newId) else None)
  }

  /** The tail of saveChannel: close the dialog, then compare the (now
      cleared) editing id with the current id. */
  function Finish(t: State, outcome: SaveOutcome, toast: Toast, selectAfter: Option<string>): (r: Saved)
    ensures r.state == CloseChannelModal(t) && r.closed
    ensures r.state.channels == t.channels && r.state.store == t.store
    ensures Persisted(t) ==> Persisted(r.state)
    ensures r.refresh <==> t.currentChannelId.None?
  {
    var closed := CloseChannelModal(t);
    Saved(closed, outcome, toast, selectAfter, true, closed.editingChannelId == closed.currentChannelId)
  }

  /** Opening a listed channel for editing and saving the form as it was
      filled in (already trimmed, no trailing '/') leaves the list as it
      was: the channel takes back its own values. */
  lemma OpenThenSaveUnchanged(s: State, id: string, newId: string)
    requires id != "" && id in Ids(s.channels)
    requires var c := Find(s.channels, id).value;
      var f := Form(c.name, c.host, c.path, c.useMp4);
      Cleaned(f) == f && f.name != "" && f.host != "" && f.path != ""
    ensures var o := OpenChannelModal(s, Some(id));
      && o.1.Some?
      && var w := SaveChannel(o.0, o.1.value.form, newId);
      && w.outcome == Updated && w.closed
      && w.state.channels == s.channels
      && (Consistent(s) ==> w.state.currentChannel == s.currentChannel)
  {
    FindSomeIff(s.channels, id);
    var o := OpenChannelModal(s, Some(id));
    var t := o.0;
    var c := Find(s.channels, id).value;
    var f := o.1.value.form;
    assert f == Form(c.name, c.host, c.path, c.useMp4);
    var w := SaveChannel(t, f, newId);
    assert w.outcome == Updated;
    UpdateWithOwnValues(t, id);
  }

  /** Saving an edit of the channel that is current never fetches its
      recordings again, although that is what the comparison is for. */
  lemma EditOfCurrentNeverRefreshes(s: State, form: Form, newId: string)
    requires Truthy(s.editingChannelId) && s.editingChannelId == s.currentChannelId
    ensures !SaveChannel(s, form, newId).refresh
  {
  }

  /** saveChannel as its comment describes it: the editing id is taken
      before the dialog closes, and the recordings are fetched again when
      that id is the current one. */
  function SaveChannelIntended(s: State, form: Form, newId: string): (r: Saved)
    ensures var w := SaveChannel(s, form, newId); r.(refresh := w.refresh) == w
    ensures r.refresh <==> r.closed && Truthy(s.editingChannelId) && s.editingChannelId == r.state.currentChannelId
  {
    var w := SaveChannel(s, form, newId);
    w.(refresh := w.closed && Truthy(s.editingChannelId) && s.editingChannelId == w.state.currentChannelId)
  }

  /** With the intended comparison, a valid edit of the current channel
      refreshes it, and an edit of any other channel does not. */
  lemma IntendedEditRefreshesCurrent(s: State, form: Form, newId: string)
    requires Truthy(s.editingChannelId)
    requires var f := Cleaned(form); f.name != "" && f.host != "" && f.path != ""
    ensures SaveChannelIntended(s, form, newId).refresh <==> s.editingChannelId == s.currentChannelId
  {
  }

  // ------------------------------------------------------------------
  // testConnection
  // ------------------------------------------------------------------

  /** What the connection test reports: a reachable server with its
      latency and, for a 2xx answer, how many recordings it listed; or a
      failure. */
  datatype Verdict = Reachable(latency: int, found: Option<nat>) | Unreachable

  /** The test's result: refused before any request (a field is empty), or
      the request sent with its verdict and toast. */
  datatype TestResult =
    | NotTested(toast: Toast)
    | Tested(request: string, verdict: Verdict, toast: Toast)

  /** `testConnection()`: lists today's recordings on the trimmed host
      (one trailing '/' removed) and path. A 404 counts as reachable with
      nothing found; another 2xx answer as reachable with what it lists;
      anything else, including a body that is not JSON, as a failure. */
  function TestConnection(form: Form, today: Date, toUtcIso: DateTime -> string, o: Outcome): (r: TestResult)
    ensures r.NotTested? <==> Trim(form.host) == "" || Trim(form.path) == ""
    ensures r.Tested? ==>
      r.request == ListUrl(StripTrailingSlash(Trim(form.host)), Trim(form.path),
                           toUtcIso(StartOfDay(today)), toUtcIso(EndOfDay(today)))
    ensures r.Tested? ==>
      (r.verdict.Reachable? <==>
         o.Responded? && (o.response.status == 404 || (IsOk(o.response.status) && o.response.body.Items?)))
    ensures r.Tested? && r.verdict.Reachable? ==>
      && r.verdict.latency == JsRound(o.elapsed)
      && (r.verdict.found.Some? <==> o.response.status != 404)
      && r.toast == Toast("Connection Test", "Server responded in " + IntToString(JsRound(o.elapsed)) + "ms", "success")
    ensures r.Tested? && r.verdict.Reachable? && r.verdict.found.Some? ==>
      o.Responded? && o.response.body.Items? && r.verdict.found.value == |o.response.body.items|
    ensures r.Tested? && r.verdict.Unreachable? ==>
      r.toast == Toast("Connection Failed", "Unable to reach MediaMTX server", "error")
  {
    var host := Trim(form.host);
    var path := Trim(form.path);
    if host == "" || path == "" then
      NotTested(Toast("Validation Error", "Please fill in all required fields", "error"))
    else
      var url := ListUrl(StripTrailingSlash(host), path, toUtcIso(StartOfDay(today)), toUtcIso(EndOfDay(today)));
      var failed := Toast("Connection Failed", "Unable to reach MediaMTX server", "error");
      match o
      case NetworkError => Tested(url, Unreachable, failed)
      case Responded(resp, elapsed) =>
        var ms := JsRound(elapsed);
        var ok := Toast("Connection Test", "Server responded in " + IntToString(ms) + "ms", "success");
        if resp.status == 404 then Tested(url, Reachable(ms, None), ok)
        else if !IsOk(resp.status) then Tested(url, Unreachable, failed)
        else
          match resp.body
          case Unparseable => Tested(url, Unreachable, failed)
          case Items(xs) => Tested(url, Reachable(ms, Some(|xs|)), ok)
  }

  /** The server a test reaches is the one a save then stores: both trim
      the host and drop one trailing '/', and the test asks for the saved
      path. */
  lemma TestedHostIsSavedHost(form: Form, today: Date, toUtcIso: DateTime -> string, o: Outcome)
    requires Trim(form.host) != "" && Trim(form.path) != ""
    ensures var r := TestConnection(form, today, toUtcIso, o);
      var f := Cleaned(form);
      && r.Tested?
      && |r.request| >= |f.host| + 6 && r.request[..|f.host| + 6] == f.host + "/list?"
      && ParseQuery(r.request[|f.host| + 6..])[0] == ("path", Some(f.path))
  {
    var f := Cleaned(form);
    ListUrlQuery(f.host, f.path, toUtcIso(StartOfDay(today)), toUtcIso(EndOfDay(today)));
  }
}
