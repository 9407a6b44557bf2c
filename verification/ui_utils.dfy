/** The presentation helpers of js/utils/uiUtils.js: the latency badge,
    the latency text, the privacy blur class and the status line. */
module UiUtils {
  import opened Wrappers
  import opened Text
  import opened Channels

  /** A `showToast(title, message, type)` notification. */
  datatype Toast = Toast(title: string, message: string, kind: string)

  /** `getBlurClass()`: the class that blurs paths and hosts in privacy mode. */
  function BlurClass(privacy: bool): (r: string)
    ensures r != "" <==> privacy
  {
    if privacy then "privacy-blur" else ""
  }

  /** `getLatencyBadgeClass(latency)`: negative means the probe failed;
      otherwise the thresholds are 100 ms and 300 ms. */
  function LatencyBadgeClass(ms: int): (r: string)
    ensures r == "latency-unknown" <==> ms < 0
    ensures r == "latency-good" <==> 0 <= ms < 100
    ensures r == "latency-medium" <==> 100 <= ms < 300
    ensures r == "latency-bad" <==> 300 <= ms
  {
    if ms < 0 then "latency-unknown"
    else if ms < 100 then "latency-good"
    else if ms < 300 then "latency-medium"
    else "latency-bad"
  }

  /** The badge classes from best to worst; an unknown latency ranks below all. */
  function BadgeRank(cls: string): int {
    if cls == "latency-good" then 1
    else if cls == "latency-medium" then 2
    else if cls == "latency-bad" then 3
    else 0
  }

  /** A slower measured latency never gets a better badge. */
  lemma BadgeMonotone(a: int, b: int)
    requires 0 <= a <= b
    ensures 1 <= BadgeRank(LatencyBadgeClass(a)) <= BadgeRank(LatencyBadgeClass(b))
  {
  }

  /** `getLatencyText(latency)`: "N/A" for a failed probe, otherwise the
      number of milliseconds followed by "ms". */
  function LatencyText(ms: int): (r: string)
    ensures r == "N/A" <==> ms < 0
    ensures ms >= 0 ==> |r| >= 3 && r[|r| - 2..] == "ms" && AllDigits(r[..|r| - 2])
  {
    if ms < 0 then "N/A"
    else
      var t := NatToString(ms) + "ms";
      assert t[0] == NatToString(ms)[0] && IsDigit(t[0]);
      t
  }

  /** The text of a measured latency reads back as that latency, so two
      different latencies never show the same text. */
  lemma LatencyTextReadsBack(ms: int)
    requires ms >= 0
    ensures var t := LatencyText(ms); AllDigits(t[..|t| - 2]) && ParseDigits(t[..|t| - 2]) == ms
  {
    var t := LatencyText(ms);
    assert t[..|t| - 2] == NatToString(ms);
    ParseNatToString(ms);
  }

  /** What `updateStatusUI()` shows: a red dot and "No channel selected", or
      a green dot with the channel's name, path and host, path and host
      carrying the blur class. */
  datatype StatusView =
    | NoChannelSelected
    | Connected(name: string, path: string, host: string, blur: string)

  /** The status line for the current channel. A channel shows as connected
      only when it has both a host and a path. */
  function StatusLine(cur: Option<Channel>, privacy: bool): (v: StatusView)
    ensures v.NoChannelSelected? <==> cur.None? || cur.value.host == "" || cur.value.path == ""
    ensures v.Connected? ==>
      v.name == cur.value.name && v.path == cur.value.path && v.host == cur.value.host
      && (v.blur != "" <==> privacy)
  {
    match cur
    case Some(c) =>
      if c.host != "" && c.path != "" then Connected(c.name, c.path, c.host, BlurClass(privacy))
      else NoChannelSelected
    case None => NoChannelSelected
  }

  /** Switching privacy mode changes nothing in the status line but the blur. */
  lemma StatusPrivacyOnlyBlurs(cur: Option<Channel>)
    ensures StatusLine(cur, true).NoChannelSelected? == StatusLine(cur, false).NoChannelSelected?
    ensures StatusLine(cur, true).Connected? ==>
      StatusLine(cur, true).(blur := "") == StatusLine(cur, false)
  {
  }
}
