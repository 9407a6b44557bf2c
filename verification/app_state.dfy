/** The application state object of js/state/appState.js as an immutable
    record, with each of its methods as a function from the state before
    to the state after. localStorage is part of the state (`store`); the
    clock enters as parameters. */
module AppState {
  import opened Wrappers
  import opened Channels
  import opened Recordings
  import opened Dates
  import opened Storage

  datatype State = State(
    channels: seq<Channel>,
    currentChannelId: Option<string>,
    /** The channel object `currentChannel` refers to; see Consistent. */
    currentChannel: Option<Channel>,
    editingChannelId: Option<string>,
    /** `channelLatencies`, keyed by channel id. */
    latencies: map<string, int>,
    privacyMode: bool,
    /** The month the calendar shows (`currentCalendarDate`). */
    calendarDate: Date,
    selectedDate: Date,
    currentStreamUrl: string,
    cachedRecordings: seq<Recording>,
    /** The values of the page's two date-filter inputs. */
    filterStart: string,
    filterEnd: string,
    store: Store)

  /** `currentChannel` is the channel the current id finds. In the source
      the two are set together, and `currentChannel` is the very object
      held in the list, so an in-place update of that object is seen
      through both; the record models that sharing by keeping this
      relation. */
  predicate Consistent(s: State) {
    s.currentChannel == FindOpt(s.channels, s.currentChannelId)
  }

  /** The stored list reads back as the list in memory. */
  predicate Persisted(s: State) {
    ChannelsKey in s.store && DecodeChannels(s.store[ChannelsKey]) == Some(s.channels)
  }

  /** Every key other than the two channel keys holds what it held before. */
  ghost predicate OtherKeysUnchanged(before: Store, after: Store) {
    forall k | k != ChannelsKey && k != CurrentChannelKey ::
      (k in after <==> k in before) && (k in after ==> after[k] == before[k])
  }

  /** The state apart from the channel list, the current channel, the
      latencies and the store is the same. */
  predicate SameViewState(a: State, b: State) {
    a.editingChannelId == b.editingChannelId && a.privacyMode == b.privacyMode
    && a.calendarDate == b.calendarDate && a.selectedDate == b.selectedDate
    && a.currentStreamUrl == b.currentStreamUrl && a.cachedRecordings == b.cachedRecordings
    && a.filterStart == b.filterStart && a.filterEnd == b.filterEnd
  }

  /** `saveChannels()`: writes the list, and the current id only when it is
      truthy; a cleared current id leaves the old stored id in place. */
  function SaveChannels(s: State): (r: State)
    ensures Persisted(r)
    ensures Truthy(s.currentChannelId) ==> GetItem(r.store, CurrentChannelKey) == s.currentChannelId
    ensures !Truthy(s.currentChannelId) ==> GetItem(r.store, CurrentChannelKey) == GetItem(s.store, CurrentChannelKey)
    ensures OtherKeysUnchanged(s.store, r.store)
    ensures r.(store := s.store) == s
    ensures r.channels == s.channels && r.currentChannelId == s.currentChannelId
    ensures r.currentChannel == s.currentChannel && r.latencies == s.latencies && SameViewState(r, s)
  {
    DecodeEncodeChannels(s.channels);
    var written := s.store[ChannelsKey := EncodeChannels(s.channels)];
    var store := if Truthy(s.currentChannelId) then written[CurrentChannelKey := s.currentChannelId.value] else written;
    s.(store := store)
  }

  /** `performLegacyMigration()`: with no stored channels and a truthy
      legacy host and path, one channel is made from them (named after the
      path), made current and saved. */
  function PerformLegacyMigration(s: State, newId: string): (r: State)
    ensures
      var host := GetItem(s.store, LegacyHostKey);
      var path := GetItem(s.store, LegacyPathKey);
      if |s.channels| == 0 && Truthy(host) && Truthy(path) then
        && r.channels == [Channel(newId, path.value, host.value, path.value, GetItem(s.store, LegacyMp4Key) == Some("true"))]
        && r.currentChannelId == Some(newId)
        && Persisted(r)
      else r == s
    ensures r.currentChannel == s.currentChannel && SameViewState(r, s) && r.latencies == s.latencies
  {
    var host := GetItem(s.store, LegacyHostKey);
    var path := GetItem(s.store, LegacyPathKey);
    if |s.channels| == 0 && Truthy(host) && Truthy(path) then
      var mp4 := GetItem(s.store, LegacyMp4Key) == Some("true");
      var c := Channel(newId, path.value, host.value, path.value, mp4);
      SaveChannels(s.(channels := s.channels + [c], currentChannelId := Some(newId)))
    else s
  }

  /** `initializeCurrentChannel()`: a truthy current id selects the channel
      it finds; when nothing is selected and the list is not empty, the
      first channel becomes current. */
  function InitializeCurrentChannel(s: State): (r: State)
    ensures |s.channels| > 0 ==> r.currentChannel.Some?
    ensures Truthy(s.currentChannelId) && Find(s.channels, s.currentChannelId.value).Some? ==>
      r.currentChannelId == s.currentChannelId && r.currentChannel == Find(s.channels, s.currentChannelId.value)
    ensures (s.currentChannel.None? && |s.channels| > 0
             && !(Truthy(s.currentChannelId) && Find(s.channels, s.currentChannelId.value).Some?)) ==>
      r.currentChannel == Some(s.channels[0]) && r.currentChannelId == Some(s.channels[0].id)
    ensures s.currentChannel.None? ==> Consistent(r)
    ensures r.channels == s.channels && r.store == s.store && r.latencies == s.latencies && SameViewState(r, s)
  {
    var cur := if Truthy(s.currentChannelId) then Find(s.channels, s.currentChannelId.value) else s.currentChannel;
    if cur.None? && |s.channels| > 0 then
      FindHead(s.channels);
      s.(currentChannel := Some(s.channels[0]), currentChannelId := Some(s.channels[0].id))
    else s.(currentChannel := cur)
  }

  /** The list `JSON.parse(getItem('mmtx_channels')) || []` reads: empty
      when the key is absent, None when the text cannot be read (the
      constructor throws). */
  function LoadChannels(store: Store): (r: Option<seq<Channel>>)
    ensures ChannelsKey !in store ==> r == Some([])
    ensures ChannelsKey in store ==> r == DecodeChannels(store[ChannelsKey])
  {
    match GetItem(store, ChannelsKey)
    case None => Some([])
    case Some(text) => DecodeChannels(text)
  }

  /** `new AppState()` at page load. `today` is the clock's date and `newId`
      the `Date.now()` text a migrated channel would get. None when the
      stored channel list cannot be read. */
  function Init(store: Store, today: Date, newId: string): (r: Option<State>)
    ensures r.None? <==> LoadChannels(store).None?
    ensures r.Some? ==> Consistent(r.value)
    ensures r.Some? ==> (r.value.privacyMode <==> GetItem(store, PrivacyModeKey) == Some("true"))
    ensures r.Some? && |r.value.channels| > 0 ==> r.value.currentChannel.Some?
    ensures r.Some? ==>
      && r.value.editingChannelId.None? && r.value.latencies == map[]
      && r.value.calendarDate == today && r.value.selectedDate == today
      && r.value.cachedRecordings == [] && r.value.currentStreamUrl == ""
  {
    var channels :- LoadChannels(store);
    var s := State(channels, OrNull(GetItem(store, CurrentChannelKey)), None, None, map[],
      GetItem(store, PrivacyModeKey) == Some("true"), today, today, "", [], "", "", store);
    Some(InitializeCurrentChannel(PerformLegacyMigration(s, newId)))
  }

  /** Reloading the page after a save restores the channel list, and the
      current channel when its id is truthy and on the list. */
  lemma ReloadRestoresChannels(s: State, today: Date, newId: string)
    requires Consistent(s) && Truthy(s.currentChannelId) && s.currentChannel.Some?
    ensures var r := Init(SaveChannels(s).store, today, newId);
      r.Some? && r.value.channels == s.channels
      && r.value.currentChannelId == s.currentChannelId
      && r.value.currentChannel == s.currentChannel
  {
    var saved := SaveChannels(s);
    assert LoadChannels(saved.store) == Some(s.channels);
    assert GetItem(saved.store, CurrentChannelKey) == s.currentChannelId;
    assert |s.channels| > 0;
  }

  /** `setCurrentChannel(id)`: the id becomes current even when no channel
      has it (the current channel is then none), and the list is saved. */
  function SetCurrentChannel(s: State, id: string): (r: State)
    ensures Consistent(r) && Persisted(r)
    ensures r.currentChannelId == Some(id)
    ensures r.currentChannel.Some? <==> id in Ids(s.channels)
    ensures r.currentChannel.Some? ==> r.currentChannel.value.id == id && r.currentChannel.value in s.channels
    ensures r.channels == s.channels && r.latencies == s.latencies && SameViewState(r, s)
  {
    FindSomeIff(s.channels, id);
    SaveChannels(s.(currentChannelId := Some(id), currentChannel := Find(s.channels, id)))
  }

  /** `addChannel(channel)`: appended at the end and saved. */
  function AddChannel(s: State, c: Channel): (r: State)
    ensures Persisted(r)
    ensures |r.channels| == |s.channels| + 1 && r.channels[|s.channels|] == c
    ensures forall i | 0 <= i < |s.channels| :: r.channels[i] == s.channels[i]
    ensures Consistent(s) && (s.currentChannel.Some? || s.currentChannelId.None? || c.id != s.currentChannelId.value) ==> Consistent(r)
    ensures UniqueIds(s.channels) && c.id !in Ids(s.channels) ==> UniqueIds(r.channels)
    ensures r.currentChannelId == s.currentChannelId && r.currentChannel == s.currentChannel
    ensures r.latencies == s.latencies && SameViewState(r, s)
  {
    AppendFacts(s.channels, s.currentChannelId, c);
    SaveChannels(s.(channels := s.channels + [c]))
  }

  lemma AppendFacts(chs: seq<Channel>, cur: Option<string>, c: Channel)
    ensures FindOpt(chs, cur).Some? || cur.None? || c.id != cur.value ==> FindOpt(chs + [c], cur) == FindOpt(chs, cur)
    ensures UniqueIds(chs) && c.id !in Ids(chs) ==> UniqueIds(chs + [c])
  {
    if cur.Some? && (FindOpt(chs, cur).Some? || c.id != cur.value) {
      FindAfterAppend(chs, c, cur.value);
    }
    if UniqueIds(chs) && c.id !in Ids(chs) {
      AppendUnique(chs, c);
    }
  }

  lemma ReplaceFacts(chs: seq<Channel>, i: nat, c: Channel, cur: Option<string>)
    requires i < |chs| && c.id == chs[i].id && IndexOf(chs, c.id) == Some(i)
    ensures Ids(chs[i := c]) == Ids(chs)
    ensures Find(chs[i := c], c.id) == Some(c)
    ensures cur.Some? ==> IndexOf(chs[i := c], cur.value) == IndexOf(chs, cur.value)
    ensures cur.Some? && cur.value != c.id ==> FindOpt(chs[i := c], cur) == FindOpt(chs, cur)
  {
    var r := chs[i := c];
    assert |Ids(r)| == |Ids(chs)|;
    forall k | 0 <= k < |chs| ensures Ids(r)[k] == Ids(chs)[k] {
    }
    IndexOfAfterReplace(chs, i, c, c.id);
    if cur.Some? {
      IndexOfAfterReplace(chs, i, c, cur.value);
      if cur.value != c.id {
        match IndexOf(chs, cur.value)
        case None =>
        case Some(j) =>
          assert j != i;
      }
    }
  }

  lemma RemoveFacts(chs: seq<Channel>, i: nat, cur: Option<string>)
    requires i < |chs|
    ensures UniqueIds(chs) ==> UniqueIds(RemoveAt(chs, i)) && chs[i].id !in Ids(RemoveAt(chs, i))
    ensures cur.Some? && cur.value != chs[i].id ==> Find(RemoveAt(chs, i), cur.value) == Find(chs, cur.value)
    ensures |RemoveAt(chs, i)| > 0 ==> Find(RemoveAt(chs, i), RemoveAt(chs, i)[0].id) == Some(RemoveAt(chs, i)[0])
  {
    if UniqueIds(chs) {
      RemoveAtUnique(chs, i);
    }
    if cur.Some? && cur.value != chs[i].id {
      FindAfterRemoveOther(chs, i, cur.value);
    }
    if |RemoveAt(chs, i)| > 0 {
      FindHead(RemoveAt(chs, i));
    }
  }

  /** `updateChannel(id, updates)`: the first channel with the id takes the
      given fields (`Object.assign`) and the list is saved; an unknown id
      changes nothing. The current channel, being the same object, shows
      the update when its id is the one updated. */
  function UpdateChannel(s: State, id: string, u: ChannelUpdate): (r: State)
    ensures Find(s.channels, id).None? ==> r == s
    ensures Find(s.channels, id).Some? ==>
      && Find(r.channels, id) == Some(Apply(Find(s.channels, id).value, u))
      && Ids(r.channels) == Ids(s.channels)
      && Persisted(r)
    ensures forall k | 0 <= k < |s.channels| && s.channels[k].id != id :: r.channels[k] == s.channels[k]
    ensures |r.channels| == |s.channels|
    ensures Consistent(s) ==> Consistent(r)
    ensures r.currentChannelId == s.currentChannelId && r.latencies == s.latencies && SameViewState(r, s)
  {
    match IndexOf(s.channels, id)
    case None => s
    case Some(i) => UpdateAt(s, i, u)
  }

  /** Updating a channel with its own values changes no channel, and a
      consistent current channel stays what it was. */
  lemma UpdateWithOwnValues(s: State, id: string)
    requires Find(s.channels, id).Some?
    ensures var c := Find(s.channels, id).value;
      var r := UpdateChannel(s, id, ChannelUpdate(Some(c.name), Some(c.host), Some(c.path), Some(c.useMp4)));
      && r.channels == s.channels
      && (Consistent(s) ==> r.currentChannel == s.currentChannel)
  {
    var i := IndexOf(s.channels, id).value;
    var c := s.channels[i];
    var u := ChannelUpdate(Some(c.name), Some(c.host), Some(c.path), Some(c.useMp4));
    assert Apply(c, u) == c;
    assert s.channels[i := c] == s.channels;
    assert UpdateChannel(s, id, u) == UpdateAt(s, i, u);
  }

  /** The update of the channel at position i, the first with its id. */
  function UpdateAt(s: State, i: nat, u: ChannelUpdate): (r: State)
    requires i < |s.channels| && IndexOf(s.channels, s.channels[i].id) == Some(i)
    ensures Find(r.channels, s.channels[i].id) == Some(Apply(s.channels[i], u))
    ensures Ids(r.channels) == Ids(s.channels) && Persisted(r)
    ensures forall k | 0 <= k < |s.channels| && k != i :: r.channels[k] == s.channels[k]
    ensures |r.channels| == |s.channels|
    ensures Consistent(s) ==> Consistent(r)
    ensures r.currentChannelId == s.currentChannelId && r.latencies == s.latencies && SameViewState(r, s)
  {
    var c := Apply(s.channels[i], u);
    ReplaceFacts(s.channels, i, c, s.currentChannelId);
    ReplaceChannelAtConsistent(s, i, c);
    SaveChannels(ReplaceChannelAt(s, i, c))
  }

  /** The state once the channel at position i is replaced by c, before
      the list is saved; the current channel follows the replacement. */
  function ReplaceChannelAt(s: State, i: nat, c: Channel): (r: State)
    requires i < |s.channels| && c.id == s.channels[i].id
    ensures r.channels == s.channels[i := c]
    ensures r.currentChannelId == s.currentChannelId && r.latencies == s.latencies
    ensures SameViewState(r, s) && r.store == s.store
    ensures s.currentChannelId == Some(c.id) ==> r.currentChannel == Some(c)
    ensures s.currentChannelId != Some(c.id) ==> r.currentChannel == s.currentChannel
  {
    var cur := if s.currentChannelId == Some(c.id) then Some(c) else s.currentChannel;
    WithCurrent(s, s.channels[i := c], s.currentChannelId, cur, s.latencies)
  }

  /** Replacing the first channel with an id keeps the current channel the
      one its id finds. */
  lemma ReplaceChannelAtConsistent(s: State, i: nat, c: Channel)
    requires i < |s.channels| && c.id == s.channels[i].id && IndexOf(s.channels, c.id) == Some(i)
    ensures Consistent(s) ==> Consistent(ReplaceChannelAt(s, i, c))
  {
    ReplaceFacts(s.channels, i, c, s.currentChannelId);
  }

  /** The state once the channel at position i is removed, before the
      list is saved: when it was current, the first remaining channel (or
      none) becomes current, and its latency is forgotten. */
  function RemoveChannelAt(s: State, i: nat): (r: State)
    requires i < |s.channels|
    ensures r.channels == RemoveAt(s.channels, i)
    ensures r.latencies == s.latencies - {s.channels[i].id}
    ensures SameViewState(r, s) && r.store == s.store
    ensures s.currentChannelId == Some(s.channels[i].id) ==> (r.currentChannelId, r.currentChannel) == FirstAsCurrent(r.channels)
    ensures s.currentChannelId != Some(s.channels[i].id) ==>
      r.currentChannelId == s.currentChannelId && r.currentChannel == s.currentChannel
  {
    var id := s.channels[i].id;
    var chs := RemoveAt(s.channels, i);
    var cur := if s.currentChannelId == Some(id) then FirstAsCurrent(chs) else (s.currentChannelId, s.currentChannel);
    WithCurrent(s, chs, cur.0, cur.1, s.latencies - {id})
  }

  /** After a removal the current channel is still the one its id finds:
      either the first remaining channel took over, or the current channel
      was another one and is found where it was. */
  lemma RemoveChannelAtConsistent(s: State, i: nat)
    requires i < |s.channels|
    ensures var r := RemoveChannelAt(s, i);
      s.currentChannelId == Some(s.channels[i].id) ==>
        if |r.channels| > 0 then r.currentChannel == Some(r.channels[0]) && r.currentChannelId == Some(r.channels[0].id)
        else r.currentChannel.None? && r.currentChannelId.None?
    ensures Consistent(s) ==> Consistent(RemoveChannelAt(s, i))
  {
    var r := RemoveChannelAt(s, i);
    var chs := RemoveAt(s.channels, i);
    RemoveFacts(s.channels, i, s.currentChannelId);
    assert r.channels == chs;
    if s.currentChannelId != Some(s.channels[i].id) {
      assert FindOpt(chs, s.currentChannelId) == FindOpt(s.channels, s.currentChannelId);
    }
  }

  /** s with a new list, current channel and latencies. */
  function WithCurrent(s: State, chs: seq<Channel>, id: Option<string>, c: Option<Channel>, lat: map<string, int>): (r: State)
    ensures r.channels == chs && r.currentChannelId == id && r.currentChannel == c && r.latencies == lat
    ensures SameViewState(r, s) && r.store == s.store
  {
    s.(channels := chs, currentChannelId := id, currentChannel := c, latencies := lat)
  }

  /** The current id and channel when the first channel of chs (or none)
      becomes current. */
  function FirstAsCurrent(chs: seq<Channel>): (r: (Option<string>, Option<Channel>))
    ensures r.1 == FindOpt(chs, r.0)
    ensures |chs| > 0 ==> r.0 == Some(chs[0].id) && r.1 == Some(chs[0])
    ensures |chs| == 0 ==> r.0.None? && r.1.None?
  {
    if |chs| > 0 then
      FindHead(chs);
      (Some(chs[0].id), Some(chs[0]))
    else (None, None)
  }

  /** The removal of position i followed by the save, as `deleteChannel`
      does it once `findIndex` has found i. */
  function DeleteAt(s: State, i: nat): (r: State)
    requires i < |s.channels|
    ensures r.channels == RemoveAt(s.channels, i)
    ensures r.latencies == s.latencies - {s.channels[i].id}
    ensures Persisted(r) && SameViewState(r, s)
    ensures UniqueIds(s.channels) ==> UniqueIds(r.channels) && s.channels[i].id !in Ids(r.channels)
    ensures s.currentChannelId == Some(s.channels[i].id) ==>
      if |r.channels| > 0 then r.currentChannel == Some(r.channels[0]) && r.currentChannelId == Some(r.channels[0].id)
      else r.currentChannel.None? && r.currentChannelId.None?
    ensures s.currentChannelId != Some(s.channels[i].id) ==>
      r.currentChannelId == s.currentChannelId && r.currentChannel == s.currentChannel
    ensures Consistent(s) ==> Consistent(r)
  {
    RemoveFacts(s.channels, i, s.currentChannelId);
    RemoveChannelAtConsistent(s, i);
    SaveChannels(RemoveChannelAt(s, i))
  }

  /** `deleteChannel(id)`: the first channel with the id is removed; when
      it was current, the first remaining channel (or none) becomes
      current; its latency is forgotten and the list saved. An unknown id
      changes nothing. */
  function DeleteChannel(s: State, id: string): (r: State)
    ensures Find(s.channels, id).None? ==> r == s
    ensures IndexOf(s.channels, id).Some? ==> r.channels == RemoveAt(s.channels, IndexOf(s.channels, id).value)
    ensures Find(s.channels, id).Some? ==>
      && |r.channels| == |s.channels| - 1
      && id !in r.latencies
      && Persisted(r)
      && (UniqueIds(s.channels) ==> UniqueIds(r.channels) && id !in Ids(r.channels))
      && (s.currentChannelId == Some(id) ==>
            if |r.channels| > 0 then r.currentChannel == Some(r.channels[0]) && r.currentChannelId == Some(r.channels[0].id)
            else r.currentChannel.None? && r.currentChannelId.None?)
      && (s.currentChannelId != Some(id) ==> r.currentChannelId == s.currentChannelId && r.currentChannel == s.currentChannel)
    ensures Consistent(s) ==> Consistent(r)
    ensures forall k | k in s.latencies && k != id :: k in r.latencies && r.latencies[k] == s.latencies[k]
    ensures SameViewState(r, s)
  {
    match IndexOf(s.channels, id)
    case None => s
    case Some(i) => DeleteAt(s, i)
  }

  /** Deleting splices out exactly the first channel with the id: the
      channels before it and after it stay, in their order, and the list
      loses one copy of that channel and nothing else. */
  lemma DeleteKeepsOrder(s: State, id: string)
    requires IndexOf(s.channels, id).Some?
    ensures var i := IndexOf(s.channels, id).value;
      var r := DeleteChannel(s, id).channels;
      && r == s.channels[..i] + s.channels[i + 1..]
      && multiset(r) + multiset{s.channels[i]} == multiset(s.channels)
  {
    var i := IndexOf(s.channels, id).value;
    assert DeleteChannel(s, id).channels == RemoveAt(s.channels, i);
    RemoveAtSplices(s.channels, i);
  }

  /** Deleting the last channel, which is current, clears the id in memory
      but not in the store: saveChannels writes the current id only when it
      is truthy. Without legacy keys, a reload then starts with no channels
      and the deleted channel's id as the current id. */
  lemma DeleteLastKeepsStoredId(s: State, id: string, today: Date, newId: string)
    requires |s.channels| == 1 && s.channels[0].id == id && s.currentChannelId == Some(id)
    ensures var r := DeleteChannel(s, id);
      && r.channels == [] && r.currentChannelId.None? && r.currentChannel.None?
      && GetItem(r.store, CurrentChannelKey) == GetItem(s.store, CurrentChannelKey)
    ensures !(Truthy(GetItem(s.store, LegacyHostKey)) && Truthy(GetItem(s.store, LegacyPathKey))) ==>
      var t := Init(DeleteChannel(s, id).store, today, newId);
      && t.Some? && t.value.channels == []
      && t.value.currentChannelId == OrNull(GetItem(s.store, CurrentChannelKey))
      && t.value.currentChannel.None?
  {
    assert IndexOf(s.channels, id) == Some(0);
    var r := DeleteChannel(s, id);
    assert r == DeleteAt(s, 0);
    assert r.channels == [];
    assert LoadChannels(r.store) == Some([]);
    assert GetItem(r.store, LegacyHostKey) == GetItem(s.store, LegacyHostKey);
    assert GetItem(r.store, LegacyPathKey) == GetItem(s.store, LegacyPathKey);
  }

  /** `setChannelLatency(id, ms)`. */
  function SetChannelLatency(s: State, id: string, ms: int): (r: State)
    ensures id in r.latencies && r.latencies[id] == ms
    ensures forall k | k in s.latencies && k != id :: k in r.latencies && r.latencies[k] == s.latencies[k]
    ensures r.(latencies := s.latencies) == s
  {
    s.(latencies := s.latencies[id := ms])
  }

  /** `getChannelLatency(id)`: `channelLatencies[id] || null`, so a latency
      of 0 reads as no latency at all. */
  function GetChannelLatency(s: State, id: string): (r: Option<int>)
    ensures r.Some? <==> id in s.latencies && s.latencies[id] != 0
    ensures r.Some? ==> r.value == s.latencies[id]
  {
    if id in s.latencies && s.latencies[id] != 0 then Some(s.latencies[id]) else None
  }

  /** Reading back a recorded latency gives it, except that 0 reads as none. */
  lemma GetAfterSetLatency(s: State, id: string, ms: int)
    ensures GetChannelLatency(SetChannelLatency(s, id, ms), id) == if ms == 0 then None else Some(ms)
  {
  }

  /** `togglePrivacyMode()`: flips the flag and stores it as "true" or "false". */
  function TogglePrivacyMode(s: State): (r: State)
    ensures r.privacyMode == !s.privacyMode
    ensures GetItem(r.store, PrivacyModeKey) == Some(if r.privacyMode then "true" else "false")
    ensures forall k | k != PrivacyModeKey :: (k in r.store <==> k in s.store) && (k in r.store ==> r.store[k] == s.store[k])
    ensures r.(privacyMode := s.privacyMode, store := s.store) == s
  {
    var p := !s.privacyMode;
    s.(privacyMode := p, store := s.store[PrivacyModeKey := if p then "true" else "false"])
  }

  /** `setCurrentStreamUrl(url)`: the URL on show changes and nothing else. */
  function SetCurrentStreamUrl(s: State, url: string): (r: State)
    ensures r.currentStreamUrl == url
    ensures r.(currentStreamUrl := s.currentStreamUrl) == s
  {
    s.(currentStreamUrl := url)
  }

  /** `setCachedRecordings(recordings)`: the cached playlist changes and
      nothing else. */
  function SetCachedRecordings(s: State, items: seq<Recording>): (r: State)
    ensures r.cachedRecordings == items
    ensures r.(cachedRecordings := s.cachedRecordings) == s
  {
    s.(cachedRecordings := items)
  }

  /** Toggling twice restores the mode, and a reload reads back the mode
      last toggled to. */
  lemma ToggleTwice(s: State, today: Date, newId: string)
    requires LoadChannels(s.store).Some?
    ensures TogglePrivacyMode(TogglePrivacyMode(s)).privacyMode == s.privacyMode
    ensures var t := TogglePrivacyMode(s);
      LoadChannels(t.store).Some? && Init(t.store, today, newId).value.privacyMode == t.privacyMode
  {
    var t := TogglePrivacyMode(s);
    assert GetItem(t.store, ChannelsKey) == GetItem(s.store, ChannelsKey);
  }
}
