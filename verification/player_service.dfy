/** js/services/playerService.js: building the playback URL of a clip, and
    downloading the playing clip while reporting progress. The download's
    network answer, its chunks and the clock are inputs. */
module PlayerService {
  import opened Wrappers
  import opened Text
  import opened Channels
  import opened Recordings
  import opened Http
  import opened Urls
  import opened AppState
  import opened UiUtils

  /** `playVideo(item)`: with a current channel, the clip's playback URL
      becomes the current stream URL; without one nothing happens. The URL
      carries `format=mp4` exactly when the channel asks for MP4. */
  function PlayVideo(s: State, item: Recording): (r: State)
    ensures s.currentChannel.None? ==> r == s
    ensures s.currentChannel.Some? ==>
      var c := s.currentChannel.value;
      && r.currentStreamUrl == GetUrl(c.host, c.path, item.start, item.duration, c.useMp4)
      && r.(currentStreamUrl := s.currentStreamUrl) == s
  {
    match s.currentChannel
    case None => s
    case Some(c) => SetCurrentStreamUrl(s, GetUrl(c.host, c.path, item.start, item.duration, c.useMp4))
  }

  /** The stream URL of a played clip asks the channel's host for the
      clip's own start and duration on the channel's path, in MP4 exactly
      when the channel is set to MP4. */
  lemma PlayedUrlNamesClip(s: State, item: Recording)
    requires s.currentChannel.Some?
    requires forall i | 0 <= i < |item.duration| :: IsUnreserved(item.duration[i])
    ensures var c := s.currentChannel.value;
      var u := PlayVideo(s, item).currentStreamUrl;
      && |u| >= |c.host| + 5 && u[..|c.host| + 5] == c.host + "/get?"
      && ParseQuery(u[|c.host| + 5..]) ==
        [("path", Some(c.path)), ("start", Some(item.start)), ("duration", Some(item.duration))]
        + (if c.useMp4 then [("format", Some("mp4"))] else [])
  {
    var c := s.currentChannel.value;
    GetUrlQuery(c.host, c.path, item.start, item.duration, c.useMp4);
  }

  // ------------------------------------------------------------------
  // parseInt(contentLength, 10)
  // ------------------------------------------------------------------

  /** The longest run of decimal digits at the start of s. */
  function LeadingDigits(s: string): (r: string)
    ensures |r| <= |s| && r == s[..|r|] && AllDigits(r)
    ensures |r| < |s| ==> !IsDigit(s[|r|])
  {
    if s == [] || !IsDigit(s[0]) then [] else [s[0]] + LeadingDigits(s[1..])
  }

  /** `parseInt(s, 10)`: leading whitespace skipped, an optional sign, then
      the longest run of digits; None stands for NaN (no digits). */
  function ParseInt(s: string): Option<int> {
    var t := TrimStart(s);
    var negative := |t| > 0 && t[0] == '-';
    var body := if |t| > 0 && (t[0] == '-' || t[0] == '+') then t[1..] else t;
    var d := LeadingDigits(body);
    var v: int := if d == [] then 0 else ParseDigits(d);
    if d == [] then None else Some(if negative then -v else v)
  }

  /** A header holding a decimal number, possibly followed by anything that
      does not start with a digit, parses to that number. */
  lemma ParseIntOfDecimal(n: nat, tail: string)
    requires tail == [] || !IsDigit(tail[0])
    ensures ParseInt(NatToString(n) + tail) == Some(n)
  {
    var d := NatToString(n);
    var s := d + tail;
    assert s[0] == d[0] && IsDigit(s[0]);
    DigitIsNotSpace(s[0]);
    assert TrimStart(s) == s;
    LeadingDigitsOf(d, tail);
    ParseNatToString(n);
    UnsignedParse(s, d);
  }

  lemma DigitIsNotSpace(c: char)
    requires IsDigit(c)
    ensures !IsJsWhitespace(c) && c != '-' && c != '+'
  {
  }

  /** A string that starts with a digit and needs no trimming parses to its
      leading digits. */
  lemma UnsignedParse(s: string, d: string)
    requires |s| > 0 && s[0] != '-' && s[0] != '+' && TrimStart(s) == s
    requires LeadingDigits(s) == d && d != [] && AllDigits(d)
    ensures ParseInt(s) == Some(ParseDigits(d))
  {
  }

  lemma {:induction false} LeadingDigitsOf(d: string, tail: string)
    requires AllDigits(d)
    requires tail == [] || !IsDigit(tail[0])
    ensures LeadingDigits(d + tail) == d
  {
    if d != [] {
      assert (d + tail)[1..] == d[1..] + tail;
      LeadingDigitsOf(d[1..], tail);
      assert d == [d[0]] + d[1..];
    } else {
      assert d + tail == tail;
    }
  }

  /** `contentLength ? parseInt(contentLength, 10) : 0`. A missing or empty
      header, and one that is not a number (NaN), all fail the `total > 0`
      test the same way, so all are 0 here. */
  function TotalOf(contentLength: Option<string>): (total: int)
    ensures contentLength.None? || contentLength.value == "" ==> total == 0
    ensures forall n: nat :: contentLength == Some(NatToString(n)) ==> total == n
  {
    match contentLength
    case None => 0
    case Some(h) =>
      if h == "" then 0
      else
        assert forall n: nat :: h == NatToString(n) ==> ParseInt(h) == Some(n) by {
          forall n: nat | h == NatToString(n) ensures ParseInt(h) == Some(n) {
            ParseIntOfDecimal(n, []);
            assert NatToString(n) + [] == NatToString(n);
          }
        }
        ParseInt(h).GetOr(0)
  }

  // ------------------------------------------------------------------
  // triggerDownload
  // ------------------------------------------------------------------

  /** What the download request gets: a network failure, or a response
      with a status, a Content-Length header, the chunk sizes the reader
      delivers, and whether the reader fails after the last of them. */
  datatype Answer =
    | Unreachable
    | Answered(status: int, contentLength: Option<string>, chunks: seq<nat>, readFails: bool)

  /** The progress text after a chunk: a percentage of the announced total,
      or, without a total, the bytes so far (shown in MB). */
  datatype Progress = Percent(pct: int) | Megabytes(bytes: nat)

  /** What `triggerDownload()` does: the request (none without a stream
      URL), the progress shown after each chunk, the file saved (name and
      size), the toast, and the URL opened in a new tab as a fallback. */
  datatype Download = Download(
    request: Option<string>,
    progress: seq<Progress>,
    saved: Option<(string, nat)>,
    toast: Option<Toast>,
    fallbackTab: Option<string>)

  /** The total size of the chunks. */
  function Sum(xs: seq<nat>): nat {
    if xs == [] then 0 else Sum(xs[..|xs| - 1]) + xs[|xs| - 1]
  }

  lemma SumSnoc(xs: seq<nat>, k: nat)
    requires k < |xs|
    ensures Sum(xs[..k + 1]) == Sum(xs[..k]) + xs[k]
  {
    assert xs[..k + 1][..k] == xs[..k];
  }

  lemma {:induction false} SumPrefixMonotone(xs: seq<nat>, i: nat, j: nat)
    requires i <= j <= |xs|
    ensures Sum(xs[..i]) <= Sum(xs[..j])
    decreases j - i
  {
    if i < j {
      SumSnoc(xs, j - 1);
      SumPrefixMonotone(xs, i, j - 1);
    }
  }

  /** The progress text for `loaded` bytes of `total`. */
  function ProgressOf(loaded: nat, total: int): Progress {
    if total > 0 then Percent(JsRound(loaded as real / total as real * 100.0)) else Megabytes(loaded)
  }

  /** Within the announced size the percentage stays between 0 and 100 and
      never goes down as more arrives. */
  lemma PercentBounded(a: nat, b: nat, total: int)
    requires total > 0 && a <= b <= total
    ensures 0 <= ProgressOf(a, total).pct <= ProgressOf(b, total).pct <= 100
  {
    var t := total as real;
    var x := a as real / t * 100.0;
    var y := b as real / t * 100.0;
    assert 0.0 <= a as real / t <= b as real / t <= 1.0 by {
      DivideMonotone(a as real, b as real, t);
      DivideMonotone(b as real, t, t);
    }
    assert 0.0 <= x <= y <= 100.0;
    RoundMonotone(x, y);
  }

  lemma DivideMonotone(a: real, b: real, t: real)
    requires 0.0 <= a <= b && t > 0.0
    ensures 0.0 <= a / t <= b / t
  {
  }

  lemma RoundMonotone(x: real, y: real)
    requires x <= y
    ensures JsRound(x) <= JsRound(y)
  {
  }

  /** Progress reported after each chunk of a download no larger than its
      announced size is a percentage that never goes down and stays within
      0 and 100. */
  lemma ProgressMonotone(chunks: seq<nat>, total: int, progress: seq<Progress>)
    requires total > 0 && Sum(chunks) <= total
    requires |progress| == |chunks|
    requires forall j | 0 <= j < |chunks| :: progress[j] == ProgressOf(Sum(chunks[..j + 1]), total)
    ensures forall i, j | 0 <= i <= j < |progress| ::
      progress[i].Percent? && progress[j].Percent? && 0 <= progress[i].pct <= progress[j].pct <= 100
  {
    assert chunks[..|chunks|] == chunks;
    forall i, j | 0 <= i <= j < |progress|
      ensures progress[i].Percent? && progress[j].Percent? && 0 <= progress[i].pct <= progress[j].pct <= 100
    {
      SumPrefixMonotone(chunks, i + 1, j + 1);
      SumPrefixMonotone(chunks, j + 1, |chunks|);
      PercentBounded(Sum(chunks[..i + 1]), Sum(chunks[..j + 1]), total);
    }
  }

  const DownloadFailedToast := Toast("Error", "Failed to download directly. Opening in new tab.", "error")

  /** `triggerDownload()`. `nowIso` is `new Date().toISOString()` at the
      time of saving. Without a stream URL nothing happens. A failed
      request, a non-2xx status, a 2xx status without a body (204, 205:
      `response.body` is null, so `getReader` throws) or a reader that
      fails ends in the error toast and the stream opened in a new tab;
      otherwise the chunks are saved as one file. */
  method TriggerDownload(s: State, answer: Answer, nowIso: string) returns (d: Download)
    ensures s.currentStreamUrl == "" ==> d == Download(None, [], None, None, None)
    ensures s.currentStreamUrl != "" ==> d.request == Some(s.currentStreamUrl)
    ensures d.saved.Some? <==>
      s.currentStreamUrl != "" && answer.Answered? && IsOk(answer.status) && !NullBodyStatus(answer.status) && !answer.readFails
    ensures d.fallbackTab.Some? <==> s.currentStreamUrl != "" && d.saved.None?
    ensures !answer.Answered? || !IsOk(answer.status) || NullBodyStatus(answer.status) ==> d.progress == []
    ensures d.fallbackTab.Some? ==> d.fallbackTab.value == s.currentStreamUrl && d.toast == Some(DownloadFailedToast)
    ensures d.saved.Some? ==>
      && d.saved.value == ("recording-" + ReplaceColonsAndDots(nowIso) + ".mp4", Sum(answer.chunks))
      && d.toast == Some(Toast("Success", "Download complete", "success"))
    ensures s.currentStreamUrl != "" && answer.Answered? && IsOk(answer.status) && !NullBodyStatus(answer.status) ==>
      && |d.progress| == |answer.chunks|
      && forall k | 0 <= k < |answer.chunks| ::
        d.progress[k] == ProgressOf(Sum(answer.chunks[..k + 1]), TotalOf(answer.contentLength))
    ensures
      (&& s.currentStreamUrl != "" && answer.Answered? && IsOk(answer.status) && !NullBodyStatus(answer.status)
       && TotalOf(answer.contentLength) > 0 && Sum(answer.chunks) <= TotalOf(answer.contentLength))
      ==> forall i, j | 0 <= i <= j < |d.progress| ::
        d.progress[i].Percent? && d.progress[j].Percent?
        && 0 <= d.progress[i].pct <= d.progress[j].pct <= 100
  {
    var url := s.currentStreamUrl;
    if url == "" {
      return Download(None, [], None, None, None);
    }
    if answer.Unreachable? || !IsOk(answer.status) || NullBodyStatus(answer.status) {
      return Download(Some(url), [], None, Some(DownloadFailedToast), Some(url));
    }
    var total := TotalOf(answer.contentLength);
    var chunks := answer.chunks;
    var loaded: nat := 0;
    var progress: seq<Progress> := [];
    var k := 0;
    while k < |chunks|
      invariant 0 <= k <= |chunks|
      invariant loaded == Sum(chunks[..k])
      invariant |progress| == k
      invariant forall j | 0 <= j < k :: progress[j] == ProgressOf(Sum(chunks[..j + 1]), total)
    {
      SumSnoc(chunks, k);
      loaded := loaded + chunks[k];
      progress := progress + [ProgressOf(loaded, total)];
      k := k + 1;
    }
    assert chunks[..|chunks|] == chunks;
    if total > 0 && Sum(chunks) <= total {
      ProgressMonotone(chunks, total, progress);
    }
    if answer.readFails {
      return Download(Some(url), progress, None, Some(DownloadFailedToast), Some(url));
    }
    var name := "recording-" + ReplaceColonsAndDots(nowIso) + ".mp4";
    d := Download(Some(url), progress, Some((name, loaded)), Some(Toast("Success", "Download complete", "success")), None);
  }
}
