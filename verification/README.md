# MediaMTX recording browser: a Dafny model

The page lists the recordings of MediaMTX servers and plays or downloads them.
It keeps a list of *channels*. A channel is a name, a server host, a stream
path and an MP4 flag, and it is saved in the browser's localStorage. At most
one channel is *current*: none while the list is empty or while the current
id names no channel. Each channel has a measured *latency*. Then
there is a *privacy mode* that blurs hosts and paths, a calendar that sets
the time window of the recordings, and the cached playlist. The page is
served by a small static file server.

This project models that core as pure Dafny functions over one immutable
state record, `AppState.State`:

- The state holds the channel list, the current id and channel, the editing
  id, the latencies and the privacy flag. It also holds the calendar month
  and selected day, the stream URL, the cached recordings, the two filter
  inputs, and the localStorage map.
- Every operation of the page is a function from a state (plus its inputs)
  to a state (plus what it shows or requests).
- Network answers, clock readings, the user's confirmation and the
  browser's local-to-UTC conversion are parameters.

The modules follow the program:

- `AppState`: `js/state/appState.js`.
- `UiUtils`: `js/utils/uiUtils.js`.
- `ChannelModal`: `js/components/channelModal.js`.
- `ChannelService`: `js/services/channelService.js`.
- `RecordingService`: `js/services/recordingService.js`.
- `PlayerService`: `js/services/playerService.js`.
- `Calendar`: `js/components/calendarComponent.js`.
- `Monolith`: `js/app.js`, the older single-file version of the same page.
  Where that version behaves like the modules, the model uses the module
  members for both. Where it differs, `Monolith` has its own member and a
  lemma stating exactly how the two compare.
- `StaticServer`: `server.js`.
- Shared value types live in their own modules:
  - `Channels`: the channel record and the array operations on it.
  - `Recordings`: clips and the newest-first sort.
  - `Dates`: integer calendar arithmetic and local ISO text.
  - `Text`: JavaScript trim, decimal text, and percent-coding as
    `encodeURIComponent` / `decodeURIComponent` do it.
  - `Urls`: the request URLs and a query reader.
  - `Storage`: localStorage keys and the channel-list codec.
  - `Http`: network outcomes and `Math.round`.
  - `Wrappers`: `Option`.

The invariant most operations keep is `AppState.Consistent`: the current
channel is the channel the current id finds. In the source these are two
fields set together, and `currentChannel` is the very object held in the
list. The model keeps the relation explicitly, and updates the current
channel when the channel with its id is edited in place.

Two facts about the program shape the model. `setToday()` does not move the
month the calendar shows (`Calendar.SetToday` keeps `calendarDate`). The name fallback
`'Default Channel'` in the legacy migration can never be taken, because the
legacy path is known to be non-empty at that point. The model therefore
always names the migrated channel after its path.

## Model

| member | source | states |
|---|---|---|
| AppState.SaveChannels | js/state/appState.js:65-70 | the stored list reads back as the list in memory; the current-id key is written only for a truthy id, so a cleared id leaves the previously stored id in place; no other key changes |
| AppState.PerformLegacyMigration | js/state/appState.js:32-51 | only for an empty list with truthy legacy host and path: exactly one channel named after the path, made current and persisted; in every other case the state is unchanged |
| AppState.InitializeCurrentChannel | js/state/appState.js:53-63 | a non-empty list always ends with a current channel; a stored id on the list keeps its channel; a missing or unknown stored id falls back to the first channel; the result is consistent |
| AppState.LoadChannels | js/state/appState.js:8 | an absent key reads as the empty list; otherwise the stored text is decoded |
| AppState.Init | js/state/appState.js:6-30 | page-load state: consistent, privacy flag exactly when the stored text is "true", a current channel whenever there are channels, empty editing id, latencies, cache and stream URL |
| AppState.ReloadRestoresChannels | js/state/appState.js:6-30 | loading the store that saveChannels wrote restores the channel list, the current id and the current channel |
| AppState.SetCurrentChannel | js/state/appState.js:76-80 | the id becomes current even when no channel has it; the current channel is present exactly when the id is on the list; the result is consistent and persisted |
| AppState.AddChannel | js/state/appState.js:82-85 | the channel is appended at the end; every earlier channel keeps its place and value; ids stay unique for a fresh id; consistency is kept; the list is persisted |
| AppState.UpdateChannel | js/state/appState.js:87-93 | an unknown id changes nothing; otherwise the channel with the id takes exactly the supplied fields, no other channel changes, the ids stay the same, consistency is kept, and the list is persisted |
| AppState.UpdateAt | js/state/appState.js:88-92 | the update at the first position holding the id changes only that position and keeps the current channel consistent |
| AppState.ReplaceChannelAt | js/state/appState.js:88-90 | replacing a channel by one with the same id: the current channel follows the replacement exactly when its id is that id |
| AppState.ReplaceChannelAtConsistent | js/state/appState.js:88-90 | replacing the first channel with an id keeps `currentChannel` equal to what the current id finds |
| AppState.RemoveChannelAt | js/state/appState.js:96-106 | the position is removed and its latency forgotten; when it was current, the first remaining channel (or none) becomes current; otherwise the current id and channel stay |
| AppState.RemoveChannelAtConsistent | js/state/appState.js:101-104 | after a removal the current channel is still the one its id finds |
| AppState.FirstAsCurrent | js/state/appState.js:101-104 | the promoted id and channel are the first channel's, or none for an empty list, and the channel is the one the id finds |
| AppState.DeleteAt | js/state/appState.js:96-106 | removing position i and saving: the list is `splice(i, 1)` of the old one, that channel's latency is gone, the list is persisted, and the current channel moves to the first remaining one only when the removed one was current |
| AppState.DeleteChannel | js/state/appState.js:95-109 | an unknown id changes nothing; otherwise the first channel with the id is spliced out and the others keep their relative order, ids stay unique, the latency entry is removed and the others kept; deleting the current channel promotes the first remaining one or clears both id and channel; deleting another keeps them; consistency is kept |
| AppState.DeleteKeepsOrder | js/state/appState.js:96-98 | the list after a delete is the part before the first channel with the id followed by the part after it, and loses exactly one copy of that channel |
| AppState.UpdateWithOwnValues | js/state/appState.js:87-93 | updating a channel with its own four values changes no channel and keeps a consistent current channel |
| AppState.DeleteLastKeepsStoredId | js/state/appState.js:65-109 | deleting the only channel, which is current, clears the id in memory but leaves the stored current id; without legacy keys a reload starts with no channels and that id as current |
| AppState.SetChannelLatency | js/state/appState.js:111-113 | records the latency for the id and keeps every other id's latency |
| AppState.GetChannelLatency | js/state/appState.js:115-117 | null both for a missing entry and for a stored latency of 0 |
| AppState.GetAfterSetLatency | js/state/appState.js:111-117 | reading back a recorded latency gives it, except that 0 reads as null |
| AppState.TogglePrivacyMode | js/state/appState.js:119-122 | flips the flag; the stored value is "true" or "false" matching the new flag; no other key or field changes |
| AppState.ToggleTwice | js/state/appState.js:119-122 | toggling twice restores the flag, and a reload reads back the flag last toggled to |
| AppState.SetCurrentStreamUrl | js/state/appState.js:124-126 | the stream URL changes and nothing else |
| AppState.SetCachedRecordings | js/state/appState.js:128-130 | the cached playlist changes and nothing else |
| Channels.IndexOf | js/state/appState.js:88-96 | the first position holding the id, or none exactly when no channel has it |
| Channels.Apply | js/state/appState.js:90 | `Object.assign`: every supplied field takes the supplied value; the id and every field the update leaves out are kept |
| Channels.RemoveAt | js/state/appState.js:98 | `splice(i, 1)`: one shorter, the order before and after the position kept |
| Channels.RemoveAtSplices | js/state/appState.js:98 | `splice(i, 1)` is the list before i followed by the list after i, and as a multiset loses exactly the element at i |
| Channels.FindSomeIff | js/state/appState.js:88 | `find` succeeds exactly for the ids on the list, and finds a listed channel with that id |
| Channels.FindAfterRemoveOther | js/state/appState.js:98 | removing one position leaves the search for any other id unchanged |
| Channels.RemoveAtUnique | js/state/appState.js:98 | removal keeps ids unique, and the removed id is gone |
| Channels.AppendUnique | js/state/appState.js:83 | appending a fresh id keeps ids unique |
| Channels.FindAfterAppend | js/state/appState.js:83 | appending keeps every earlier search result |
| Storage.GetItem | js/state/appState.js:8-15 | null exactly for an absent key |
| Storage.OrNull | js/state/appState.js:9 | a falsy value becomes null: present exactly when the value is truthy, and then unchanged |
| Storage.DecodeEncodeChannels | js/state/appState.js:66 | the text written for a channel list reads back as the same list |
| Storage.DecodeEncodeChannel | js/state/appState.js:66 | one channel's text, followed by anything, reads back as that channel and the rest |
| UiUtils.BlurClass | js/utils/uiUtils.js:66-68 | a non-empty class exactly when privacy mode is on |
| UiUtils.LatencyBadgeClass | js/utils/uiUtils.js:71-76 | unknown exactly below 0, good exactly for 0..99, medium exactly for 100..299, bad exactly from 300 |
| UiUtils.BadgeMonotone | js/utils/uiUtils.js:71-76 | a larger non-negative latency never gets a better class |
| UiUtils.LatencyText | js/utils/uiUtils.js:78-81 | "N/A" exactly for a negative latency, otherwise digits followed by "ms" |
| UiUtils.LatencyTextReadsBack | js/utils/uiUtils.js:78-81 | the digits of the text are the latency, so distinct latencies show distinct texts |
| UiUtils.StatusLine | js/utils/uiUtils.js:84-102 | "No channel selected" exactly when there is no current channel or its host or path is empty; otherwise its name, path and host, blurred exactly in privacy mode |
| UiUtils.StatusPrivacyOnlyBlurs | js/utils/uiUtils.js:84-102 | privacy mode changes nothing in the status line but the blur |
| ChannelModal.OpenChannelModal | js/components/channelModal.js:12-40 | the editing id is recorded in every case; no id opens the empty add form with the default host; a known id opens the edit form filled with that channel; an unknown truthy id opens nothing |
| ChannelModal.CloseChannelModal | js/components/channelModal.js:43-46 | clears the editing id and nothing else |
| ChannelModal.Cleaned | js/components/channelModal.js:105-107 | all fields trimmed; at most one trailing '/' removed from the host |
| ChannelModal.SaveChannel | js/components/channelModal.js:102-160 | the outcome is Invalid exactly when a cleaned field is empty, Updated exactly for a valid form with a truthy editing id, DuplicateName exactly for a valid new form whose name is listed, and Added exactly for a valid new form with an unlisted name; an empty cleaned field is refused with the state unchanged; an edit goes through updateChannel with no duplicate-name check; on add only, an exact existing name is refused with the state unchanged and the "Duplicate Name" toast; an edit toasts "Channel Updated" / "<name> has been updated"; a successful add is exactly AppState.AddChannel of the new channel followed by closing the dialog, toasts "Channel Added" / "<name> has been created", and selects the channel afterwards when it is the only one; the dialog closes exactly on success; the refresh fires exactly when no channel id is current |
| ChannelModal.OpenThenSaveUnchanged | js/components/channelModal.js:12-160 | opening a listed channel for editing and saving the form as filled in (already clean) is an update that leaves the channel list, and a consistent current channel, as they were |
| ChannelModal.Finish | js/components/channelModal.js:153-159 | closing clears the editing id before the comparison, so the refresh fires exactly when the current id is null |
| ChannelModal.EditOfCurrentNeverRefreshes | js/components/channelModal.js:153-159 | editing the current channel never refreshes its recordings |
| ChannelModal.SaveChannelIntended | js/components/channelModal.js:153-159 | the intended save differs from the written one only in the refresh, which fires when the edited id is the current one |
| ChannelModal.IntendedEditRefreshesCurrent | js/components/channelModal.js:153-159 | with the intended comparison, a valid edit refreshes exactly when it edits the current channel |
| ChannelModal.TestConnection | js/components/channelModal.js:49-99 | no request when the trimmed host or path is empty; otherwise today's window is listed on the cleaned host; a 404 and a parsable 2xx answer count as reachable, with the rounded latency, the "Server responded in <ms>ms" toast and, except for 404, the number of items listed; anything else fails with the "Connection Failed" / "Unable to reach MediaMTX server" toast |
| ChannelModal.TestedHostIsSavedHost | js/components/channelModal.js:72-107 | the test asks the host a save would store for the path a save would store |
| ChannelService.LatencyOf | js/services/channelService.js:16-27 | -1 on a network failure; for any response, whatever its status, the elapsed time rounded, non-negative for a non-negative time |
| ChannelService.MeasureLatency | js/services/channelService.js:10-28 | an unknown id returns null, sends nothing and records nothing; otherwise it lists the channel's recordings at "now" and records the latency, keeping every other latency |
| ChannelService.ProbeAsksForChannel | js/services/channelService.js:17-19 | the probe's query reads back as the channel's path with start and end both "now" |
| ChannelService.ProbeStep | js/services/channelService.js:31-36 | one more probe extends what the earlier probes did, in list order |
| ChannelService.MeasureAllLatencies | js/services/channelService.js:31-36 | with unique ids, every channel is probed exactly once, in list order, and its own latency is recorded; only latencies change; latencies of ids not on the list are kept |
| ChannelService.SelectChannel | js/services/channelService.js:39-54 | the id becomes current and is persisted; an unknown id sends no probe and fetches nothing; a known id is probed with the list URL of its host and path at "now", its latency recorded, and then its recordings are fetched |
| ChannelService.ClickRow | js/services/channelService.js:132-135 | a click on the active row does nothing; a click on any other row is exactly ChannelService.SelectChannel of its id |
| ChannelService.ClickOtherRowProbesIt | js/services/channelService.js:132-135 | clicking a listed channel that is not current makes it current, probes it at "now", records its latency and fetches its recordings |
| ChannelService.DeleteChannel | js/services/channelService.js:57-76 | an unknown id or a declined confirmation changes nothing; otherwise the state is AppState.DeleteChannel's, and the recordings are re-fetched exactly when a current channel remains |
| ChannelService.DeleteMovesSelection | js/services/channelService.js:57-76 | deleting the current channel moves the selection to the first remaining channel, and refreshes exactly when one remains |
| ChannelService.LatencyCell | js/services/channelService.js:96-99 | '...' with the unknown class for a null lookup; otherwise the uiUtils class and text |
| ChannelService.ZeroLatencyShowsPending | js/services/channelService.js:96-99 | a recorded latency shows '...' exactly when it is 0 |
| ChannelService.RenderChannels | js/services/channelService.js:79-154 | the placeholder exactly for an empty list; otherwise one row per channel in list order, with its id and name, active exactly for the current id, the latency badge class and text of that channel's stored latency ("..." with the unknown class when there is none), the blur class exactly in privacy mode, and the channel's path and host |
| ChannelService.AtMostOneActiveRow | js/services/channelService.js:79-154 | with unique ids at most one row is active |
| Recordings.SortNewestFirst | js/services/recordingService.js:79 | the result is newest start first and a permutation of the input |
| Recordings.SortKeepsEqualStartsInOrder | js/services/recordingService.js:79 | the sort is stable: the clips that start at any one instant come out in the order they were fetched |
| Recordings.SortSortedIsIdentity | js/services/recordingService.js:79 | a list that is already newest first is left as it is |
| Recordings.SortIdempotent | js/services/recordingService.js:79 | sorting twice is sorting once |
| RecordingService.RenderPlaylist | js/services/recordingService.js:63-145 | the cache ends up holding the items sorted newest first (the same multiset); an empty list shows "not found"; the badge counts the items; nothing else changes |
| RecordingService.RenderRecordings | js/services/recordingService.js:148-161 | re-renders exactly when the cache is non-empty, showing the cache; re-blurs the stream URL exactly when one is shown |
| RecordingService.RerenderKeepsState | js/services/recordingService.js:148-161 | re-rendering a rendered playlist leaves the state as it is |
| RecordingService.FilterWindow | js/services/recordingService.js:28-29 | the window exists exactly when both filter inputs read as local times, and is their UTC text |
| RecordingService.FetchRecordings | js/services/recordingService.js:11-60 | no usable channel: no request and nothing changes; a request is sent exactly for a usable channel and a readable window, and is the list URL of the channel over the window; the view is the failure exactly for a usable channel with an unreadable window, a network failure, a status neither 404 nor 2xx, or a 2xx body that is not JSON, and then the error toast shows and the cache is left as it was; a 404 renders the empty playlist with no toast; a 2xx list renders exactly as RenderPlaylist of its items, with the "Sync Complete" / "Found N recordings" toast; the last-refreshed time is stamped exactly when a channel is usable |
| RecordingService.FetchAsksForFilterWindow | js/services/recordingService.js:28-31 | the request's query reads back as the channel's path and the window's start and end |
| RecordingService.NotFoundIsEmptyList | js/services/recordingService.js:35-45 | a 404 gives the same state, view and '0 Clips' badge as an empty 200 answer, without the "Found 0 recordings" toast |
| RecordingService.NotFoundRenders | js/services/recordingService.js:35-76 | a 404 empties the cache and shows '0 Clips' |
| RecordingService.EmptyListRenders | js/services/recordingService.js:43-76 | an empty 2xx list empties the cache, shows '0 Clips' and announces 0 recordings |
| RecordingService.FailureKeepsStaleCache | js/services/recordingService.js:48-151 | after a failed fetch the next re-render shows the earlier clips again |
| PlayerService.PlayVideo | js/services/playerService.js:10-48 | no current channel: nothing changes; otherwise the stream URL becomes the clip's playback URL and nothing else changes |
| PlayerService.PlayedUrlNamesClip | js/services/playerService.js:16-22 | the stream URL is the host, '/get?', then path, start and duration read back as the channel's path and the clip's start and duration, with format=mp4 exactly when the channel asks for MP4 |
| PlayerService.TotalOf | js/services/playerService.js:67-68 | a missing or empty Content-Length counts as 0; a decimal one as its value |
| PlayerService.ParseIntOfDecimal | js/services/playerService.js:68 | parseInt reads a decimal number back, whatever non-digit text follows |
| PlayerService.ProgressMonotone | js/services/playerService.js:67-87 | with a positive total no smaller than the data, the progress is a percentage that never goes down and stays within 0..100 |
| PlayerService.PercentBounded | js/services/playerService.js:81-82 | the percentage of a part of the total lies within 0..100 and grows with the part |
| PlayerService.TriggerDownload | js/services/playerService.js:51-116 | nothing without a stream URL; a file is saved exactly for a 2xx answer that has a body (not 204 or 205, whose null body makes `getReader` throw) and whose reader does not fail, named "recording-" plus the timestamp with ':' and '.' replaced by '-' plus ".mp4", holding the sum of the chunk sizes; otherwise the stream opens in a new tab with the error toast; progress after each chunk is the percentage for a positive total, else the bytes so far; no progress is reported when the server is unreachable, answers outside 2xx or sends a null body |
| Text.Trim | js/components/channelModal.js:105-107 | the trimmed text is a slice of the input that neither starts nor ends with whitespace, with only whitespace cut off |
| Text.TrimEmptyIff | js/components/channelModal.js:110 | the trimmed text is empty exactly when the input is all whitespace |
| Text.TrimIdempotent | js/components/channelModal.js:105-107 | trimming twice is trimming once |
| Text.StripTrailingSlash | js/components/channelModal.js:106 | `replace(/\/$/, '')`: one trailing '/' removed, if there is one |
| Text.ReplaceColonsAndDots | js/services/playerService.js:97-98 | same length; ':' and '.' become '-'; every other character is kept |
| Text.AsciiLower | server.js:25 | same length, each character lowered on its own (ASCII letters only) |
| Text.DecodeEncodeUriComponent | js/services/recordingService.js:31 | decodeURIComponent undoes encodeURIComponent for every string of scalar values |
| Text.EncodedHasNoDelimiters | js/services/recordingService.js:31 | an encoded value has no '&', '=', '?' or '/', so it cannot break the query |
| Text.ParseNatToString | js/utils/uiUtils.js:80 | the decimal text of a number reads back as the number |
| Urls.ListUrlQuery | js/services/recordingService.js:31 | the list URL is the host, '/list?', and a query that reads back as exactly path, start and end |
| Urls.GetUrlQuery | js/services/playerService.js:16-20 | the playback URL is the host, '/get?', and a query that reads back as path, start, duration, plus format=mp4 exactly when asked |
| Urls.ParseEncodedParam | js/services/recordingService.js:31 | a parameter built by the page reads back as its key and value |
| Dates.DaysInMonth | js/components/calendarComponent.js:52 | every month has 28 to 31 days |
| Dates.Weekday | js/components/calendarComponent.js:51 | a weekday between 0 (Sunday) and 6 |
| Dates.NextMonthWeekday | js/components/calendarComponent.js:51-52 | the first of the next month falls the month's length of days later in the week |
| Dates.MakeDate | js/components/calendarComponent.js:99-108 | the date arithmetic `setMonth` and `new Date(y, m, d)` share, on the year as given: an overflowing month and day are normalised to a valid date, d - 1 days after the first of month m counted on from year y |
| Dates.NewDate | js/components/calendarComponent.js:81 | `new Date(y, m, d)`: a year 0..99 counts as 1900 + y; a day that fits the month gives exactly that date of the year so read, otherwise the date d - 1 days after the first of the month |
| Dates.MakeDateOfValid | js/components/calendarComponent.js:81 | a date that is already valid is left as it is |
| Dates.ParseFormatMinutes | js/components/calendarComponent.js:10-17 | the text `toISOString().slice(0, 16)` gives a local time reads back as that time cut to the minute |
| Dates.ParseFormatMillis | js/components/calendarComponent.js:10-17 | a 23-character local time text reads back as exactly that time |
| Calendar.SetFilterDates | js/components/calendarComponent.js:10-17 | each input reads back as its time cut to the minute; nothing else changes |
| Calendar.EndOfDayFilterLosesLastMinute | js/components/calendarComponent.js:10-35 | the end of a day is written as 23:59, and reads back as 23:59:00.000, not 23:59:59.999 |
| Calendar.SetFilterDatesExact | js/components/calendarComponent.js:10-17 | each input reads back as exactly the time given |
| Calendar.ExactAgreesOnWholeMinutes | js/components/calendarComponent.js:10-17 | for both the start and the end field, the two writers agree on every time with zero seconds and milliseconds, and the exact writer keeps any other time |
| Calendar.SetToday | js/components/calendarComponent.js:20-35 | today becomes the selected day; the window is the whole of today as the inputs can hold it; the calendar month stays; the recordings are fetched exactly when a channel is current |
| Calendar.DayClick | js/components/calendarComponent.js:80-92 | the clicked day of the shown month, in the year `new Date` reads (1900 + year for a shown year 0..99), becomes selected with the whole-day window; fetches exactly when a channel is current |
| Calendar.DayClickOnTodayIsSetToday | js/components/calendarComponent.js:20-92 | from year 100 on, clicking today's cell does what the "today" button does |
| Calendar.DayClickTwoDigitYear | js/components/calendarComponent.js:80-92 | in a year 0..99, today's cell selects the same day 1900 years later, not what the "today" button selects |
| Calendar.Grid | js/components/calendarComponent.js:51-78 | weekday-of-the-first blanks, then days 1..daysInMonth in increasing order, both taken in the year `new Date` reads; a day is active exactly when it is the selected date and marked today exactly when it is today |
| Calendar.GridColumns | js/components/calendarComponent.js:51-78 | each day sits in its weekday's column, in the year `new Date` reads; at most one cell is active; at most 42 cells |
| Calendar.PrevMonth | js/components/calendarComponent.js:99-102 | always a valid date; one month back, same day, when the day is at most 28 |
| Calendar.NextMonth | js/components/calendarComponent.js:105-108 | always a valid date; one month on, same day, when the day is at most 28 |
| Calendar.PrevMonthStep | js/components/calendarComponent.js:99-102 | "previous month" changes only the month shown: the selected day and the window stay, nothing is fetched, and a day up to 28 moves exactly one month back |
| Calendar.NextMonthStep | js/components/calendarComponent.js:105-108 | "next month" changes only the month shown: the selected day and the window stay, nothing is fetched, and a day up to 28 moves exactly one month on |
| Calendar.MakeDateOfTargetMonth | js/components/calendarComponent.js:99-108 | setMonth lands in the target month when the day fits, otherwise in the month after it, overflowing by the excess days |
| Calendar.NextMonthSkipsFebruary | js/components/calendarComponent.js:105-108 | from 31 January 2025 "next" shows 3 March |
| Calendar.PrevMonthStaysInMarch | js/components/calendarComponent.js:99-102 | from 31 March 2025 "previous" stays in March |
| Calendar.PrevMonthFirst | js/components/calendarComponent.js:99-102 | the first of the month before: exactly one month back |
| Calendar.NextMonthFirst | js/components/calendarComponent.js:105-108 | the first of the month after: exactly one month on |
| Calendar.PrevNextInverse | js/components/calendarComponent.js:99-108 | the corrected steps undo each other |
| Monolith.SelectChannel | js/app.js:260-277 | the id becomes current at once; an unknown id returns before persisting, probing or fetching; a known one is persisted, probed and then fetched |
| Monolith.SelectMatchesModules | js/app.js:260-277 | for a listed id both versions agree; for an unknown id only the store differs, as the single-file version does not write it |
| Monolith.DeleteChannel | js/app.js:233-258 | the same deletion as AppState.DeleteChannel (promotion, latency removal, unknown id a no-op); re-fetches only when the deleted channel was current and another took its place |
| Monolith.DeleteMatchesModules | js/app.js:233-258 | the versions differ exactly when another channel than the current one is deleted while one is current |
| Monolith.SaveChannel | js/app.js:174-231 | Invalid, Updated, DuplicateName and Added each exactly under the same form conditions as the modules; the same toasts; the edit path with no duplicate check; an unknown editing id changes no channel and shows no toast; an add keeps every earlier channel in place and appends the new one; the first added channel is selected (probed and fetched) before the dialog closes |
| Monolith.SaveEdit | js/app.js:187-196 | all four fields of the matching channel are overwritten; the toast appears exactly when a channel has the editing id |
| Monolith.SaveNew | js/app.js:198-219 | every earlier channel kept in place and the new one appended, with the "Channel Added" toast; a later channel leaves the current channel and latencies as they were; the first channel added becomes current, is probed and fetched |
| Monolith.SaveMatchesModules | js/app.js:174-231 | both saves end the same way; they agree on state, toast and refresh except for an unknown editing id and the moment a first channel is selected |
| Monolith.SaveChannelsTwice | js/app.js:80-85 | saving what is already saved changes nothing |
| Monolith.Boot | js/app.js:437-472 | page load: consistent state, today selected, at most two fetches: one when a channel is current, a second when it has a host and a path |
| Monolith.BootFallsBackToFirst | js/app.js:439-447 | a stored id that is missing or unknown falls back to the first channel |
| Monolith.BootMigratesLegacy | js/app.js:53-71 | an empty list with truthy legacy host and path yields one active channel named after the path, saved, and fetched twice |
| StaticServer.Extname | server.js:25 | `path.extname`: empty, or a '.' followed by no further '.' or '/', a proper suffix of the base name |
| StaticServer.TypeIn | server.js:24-27 | the table's entry for the lower-cased extension, and application/octet-stream for any other |
| StaticServer.TypeOfName | server.js:24-27 | a file named with a known extension, in any letter case, gets that extension's type whatever its directory and other dots |
| StaticServer.TypeWithoutDot | server.js:24-27 | a file name without '.' gets application/octet-stream |
| StaticServer.Resolve | server.js:40-41 | the resolved path is absolute |
| StaticServer.ResolvedIsClean | server.js:40-41 | a resolved path has no empty, "." or ".." segment |
| StaticServer.ResolveChild | server.js:48 | joining a clean name onto a resolved directory adds one segment |
| StaticServer.Target | server.js:34-41 | the pathname ("/" when empty) is decoded, "/" becomes "/index.html", and the result is resolved under the root; none when decoding fails |
| StaticServer.Decide | server.js:31-74 | 500 exactly when decoding fails; 403 Forbidden exactly when the guard refuses; 404 exactly for an admitted path that does not exist; a directory serves its index.html or is refused; every 200 carries the content type and Access-Control-Allow-Origin '*', no other status does |
| StaticServer.Route | server.js:31-74 | statuses are 200, 403, 404 or 500, and a 200 target passed `startsWith(root)` |
| StaticServer.RootIsIndex | server.js:34-37 | a request for '/' or an empty pathname is answered as '/index.html' |
| StaticServer.ForbiddenWhateverExists | server.js:42-44 | a refused target is refused before any file-system check |
| StaticServer.SiblingDirectoryIsServed | server.js:42-44 | a directory beside the root whose name starts with the root's name is served, through "/..%2F"; the intended guard refuses it |
| StaticServer.SiblingExample | server.js:42-44 | run from /app, the pathname /..%2Fapp-data/key is served as /app-data/key |
| StaticServer.RouteIntended | server.js:31-74 | with the guard as intended, a 200 target is the root or below it |
| StaticServer.IntendedServesBelowRoot | server.js:40-57 | whatever the intended handler serves, a directory's index.html included, lies in the root's tree |
| StaticServer.IntendedAgreesInside | server.js:42-44 | the two handlers differ exactly on targets that start with the root's text without lying below it |

## Left out

- localStorage and JSON: the channel list is stored with an own length-prefixed codec (with a round trip proved), not as JSON text. Text that does not decode makes page load yield None where the source would throw.
- Time zones and daylight saving: `toISOString` of a local time is a function parameter (`toUtcIso`). Local dates are (year, month 0-11, day) over years 0..9999; the constructor's reading of years 0..99 as 1900 + year is modelled by Dates.NewDate.
- The leniency of V8's `new Date(string)` parser: a filter value reads as a date only in the `YYYY-MM-DDTHH:MM[:SS[.mmm]]` shape.
- `toLocaleString`, `toLocaleDateString`, `toFixed` and the MB text of the download progress: the model keeps the byte count instead.
- The DOM: HTML templates, modal show/hide, toasts as shown, icons, the loader, the clock and the last-refreshed text. The model keeps only which message, view or signal is chosen, and whether the last-refreshed time is stamped.
- Concurrency: overlapping fetches and out-of-order async completion, including the fire-and-forget fetch in js/app.js. Every operation runs to completion before the next.
- `Array.prototype.sort` is modelled as a stable insertion sort. `sort` is stable (ECMAScript 2019 and later), so clips with equal starts keep their fetched order, as Recordings.SortKeepsEqualStartsInOrder states.
- Lowercasing in `contentType` covers ASCII letters only. Lone UTF-16 surrogates, on which `encodeURIComponent` throws, are outside the model's strings.
- server.js: the `URL` parser is not modelled (the pathname it produces is an input), nor reading the file, `statSync` errors, the port and logging.
- StaticServer.Extname: models `path.extname` for paths without a trailing '/'; `path.resolve` never produces one here.
- AppState: `savePrivacyMode` is folded into TogglePrivacyMode, its only caller.
- js/main.js, js/components/mobileNav.js, js/components/privacyComponent.js and js/config/domElements.js hold event wiring, UI toggles and element lookups. They are not part of this model.
- Urls.GetUrlQuery: the duration goes into the playback URL unencoded, so its read-back is stated for a duration of unreserved characters only.
- PlayerService.PlayedUrlNamesClip: stated for a duration of unreserved characters, as for Urls.GetUrlQuery.
- Calendar.PrevMonth: the month index property is stated for days up to 28; for later days the step can land elsewhere, which Calendar.MakeDateOfTargetMonth describes.
- Calendar.NextMonth: as for Calendar.PrevMonth.
- StaticServer.SiblingDirectoryIsServed: stated for a root with one segment; StaticServer.IntendedAgreesInside covers every root.
- RecordingService.FetchRecordings: a 2xx body is an array of recordings or not JSON at all. Other JSON values are not represented. For `null` the source caches null and announces 0 recordings. For an object it caches the object, then `sort` throws and the failure view shows with the cache already replaced.
- ChannelModal.TestConnection: for the same reason, a 2xx JSON body that is not an array is not represented. For an object the source reports "Found undefined recordings" with the success toast, and for `null` it fails.
- The host shown for a channel is the stored host. The source shows `new URL(host).hostname` (js/utils/uiUtils.js:94, js/services/channelService.js:117, js/app.js:390, js/app.js:635). The URL parser is not modelled. A host that does not parse as an absolute URL makes `new URL` throw a TypeError. A host without a scheme, such as "192.168.1.5:9996", is one such host, and the channel form accepts it. The model assumes every stored host parses, so the throw and the steps it skips are not represented. The lines below name what that leaves out, member by member.
- UiUtils.StatusLine: shows the host as stored, not its hostname, and never fails.
- ChannelService.RenderChannels: one row per channel is always produced. In the source, rendering stops with the TypeError at the first channel whose host does not parse.
- ChannelService.SelectChannel: for such a host the source throws at js/services/channelService.js:44, after the id is set and persisted and before the probe and the fetch. The model always probes and fetches.
- ChannelService.ClickRow: as ChannelService.SelectChannel.
- ChannelService.DeleteChannel: when the new current channel has such a host, the throw at js/services/channelService.js:67 skips the fetch, the re-render and the toast.
- ChannelModal.SaveChannel: when any stored channel, not only the saved one, has such a host, the channel is saved, but the throw in `renderChannels()` at js/components/channelModal.js:152 keeps the dialog open and the editing id set, and skips the refresh.
- Monolith.SelectChannel: for such a host the throw at js/app.js:267 comes after the save and before the probe and the fetch.
- Monolith.DeleteChannel: when the promoted channel has such a host, the throw at js/app.js:247 comes before the latency removal and the save at js/app.js:253-254, so the deletion is not stored.
- Monolith.SaveChannel: when any stored channel has such a host, an Updated or Added save stores the list at js/app.js:222, and then `renderChannels()` throws at js/app.js:223 (via js/app.js:390). The dialog stays open, the editing id stays set and the refresh at js/app.js:226-230 is skipped. The model always closes (`r.closed`).
- Monolith.SaveEdit: as Monolith.SaveChannel. The edited list is stored, the throw at js/app.js:223 comes before `closeChannelModal()`, and the model's `r.closed` does not hold then.
- Monolith.SaveNew: for a first channel with such a host, the selection stores the list at js/app.js:266 and throws at js/app.js:267, so there is no probe and no fetch, and js/app.js:222 is never reached. For a later channel, or when any other stored channel has such a host, the list is stored and the throw at js/app.js:223 keeps the dialog open. In both cases the model's `r.closed` does not hold.
- Monolith.Boot: with a stored host that does not parse, the startup render at js/app.js:453 throws before setToday and both fetches.
- Monolith.BootFallsBackToFirst: as Monolith.Boot.
- Monolith.BootMigratesLegacy: as Monolith.Boot, for the legacy host.
- PlayerService.TriggerDownload: the progress percentage is `Math.round(loaded / total * 100)` computed on exact reals, not IEEE-754 doubles. Where the double product falls just below a half, the source rounds down and the model rounds up: 23 of 40 bytes gives 57.49999999999999 in doubles, so the source shows 57% and the model 58%. PlayerService.ProgressOf, PlayerService.PercentBounded and PlayerService.ProgressMonotone carry the same simplification.
- Recordings.SortNewestFirst: a start is a whole number of milliseconds. A start that `new Date` cannot read makes the comparator return NaN. `sort` treats that as 0, so the order then depends on the engine, and this is not represented.
- ChannelService.MeasureAllLatencies: the per-channel request and latency are stated for unique ids; with duplicate ids, `find` probes the first channel with the id each time.

## Findings

| source | as written | input that shows it | evidently intended | confidence | as-written member | corrected member |
|---|---|---|---|---|---|---|
| js/components/channelModal.js:153-159 | `closeChannelModal()` clears `editingChannelId` before the comparison with `currentChannelId`, so the refresh fires only when no channel is current | edit the current channel "a" (editing id "a", current id "a"): no refresh | re-fetch the recordings after editing the current channel | not executed | ChannelModal.EditOfCurrentNeverRefreshes | ChannelModal.IntendedEditRefreshesCurrent |
| js/components/calendarComponent.js:10-17 | `toISOString().slice(0, 16)` cuts the seconds, so the end of day 23:59:59.999 is written as 23:59 | setToday on any day: the end filter reads back as 23:59:00.000, and clips starting in the last minute fall outside the window | the filter window covers the whole day | not executed | Calendar.EndOfDayFilterLosesLastMinute | Calendar.ExactAgreesOnWholeMinutes |
| js/components/calendarComponent.js:99-108 | `setMonth(getMonth() ± 1)` on a date whose day does not fit the target month overflows into the month after | 31 January 2025, "next": shows March; 31 March 2025, "previous": stays in March | move the calendar exactly one month | not executed | Calendar.NextMonthSkipsFebruary | Calendar.PrevNextInverse |
| server.js:42-44 | `resolved.startsWith(root)` also admits sibling directories whose name starts with the root's name | root /app, pathname /..%2Fapp-data/key, file /app-data/key: served with 200 | serve only the root and paths below it | not executed | StaticServer.SiblingExample | StaticServer.IntendedServesBelowRoot |
