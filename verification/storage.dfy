/** The browser's localStorage as the application uses it: the keys it
    reads and writes, the truthiness tests it applies to what it reads, and
    a text form for the channel list. The source writes the list with
    `JSON.stringify` and reads it with `JSON.parse`; the model uses its own
    length-prefixed text form with the property the application relies on,
    that reading back what was written gives the same list. */
module Storage {
  import opened Wrappers
  import opened Text
  import opened Channels

  type Store = map<string, string>

  const ChannelsKey := "mmtx_channels"
  const CurrentChannelKey := "mmtx_current_channel"
  const PrivacyModeKey := "mmtx_privacy_mode"
  const LegacyHostKey := "mmtx_host"
  const LegacyPathKey := "mmtx_path"
  const LegacyMp4Key := "mmtx_mp4"

  /** `getItem(key)`: null when the key is absent. */
  function GetItem(store: Store, key: string): (r: Option<string>)
    ensures r.Some? <==> key in store
    ensures r.Some? ==> r.value == store[key]
  {
    if key in store then Some(store[key]) else None
  }

  /** JavaScript truthiness of a string-or-null: null and "" are false. */
  predicate Truthy(v: Option<string>) {
    v.Some? && v.value != ""
  }

  /** `value || null` on a string-or-null. */
  function OrNull(v: Option<string>): (r: Option<string>)
    ensures r.Some? <==> Truthy(v)
    ensures r.Some? ==> r == v
  {
    if Truthy(v) then v else None
  }

  // ------------------------------------------------------------------
  // Channel list text form
  // ------------------------------------------------------------------

  /** A string preceded by its length and a colon. */
  function EncodeField(s: string): string {
    NatToString(|s|) + ":" + s
  }

  function EncodeChannel(c: Channel): string {
    EncodeField(c.id) + EncodeField(c.name) + EncodeField(c.host) + EncodeField(c.path)
      + (if c.useMp4 then "T" else "F")
  }

  function EncodeChannels(chs: seq<Channel>): string {
    if chs == [] then "" else EncodeChannel(chs[0]) + EncodeChannels(chs[1..])
  }

  /** The length of the run of digits s starts with. */
  function DigitRun(s: string): (k: nat)
    ensures k <= |s| && AllDigits(s[..k])
    ensures k < |s| ==> !IsDigit(s[k])
  {
    if s == [] || !IsDigit(s[0]) then 0
    else
      var k := DigitRun(s[1..]);
      assert s[..k + 1] == [s[0]] + s[1..][..k];
      1 + k
  }

  /** Reads one length-prefixed field; returns it and the rest of the text. */
  function DecodeField(s: string): (r: Option<(string, string)>)
    ensures r.Some? ==> |r.value.1| < |s|
  {
    var k := DigitRun(s);
    if k == 0 || k == |s| || s[k] != ':' then None
    else
      var n := ParseDigits(s[..k]);
      if k + 1 + n > |s| then None
      else Some((s[k + 1..k + 1 + n], s[k + 1 + n..]))
  }

  function DecodeChannel(s: string): (r: Option<(Channel, string)>)
    ensures r.Some? ==> |r.value.1| < |s|
  {
    var id :- DecodeField(s);
    var name :- DecodeField(id.1);
    var host :- DecodeField(name.1);
    var path :- DecodeField(host.1);
    var rest := path.1;
    if rest == [] then None
    else if rest[0] == 'T' then Some((Channel(id.0, name.0, host.0, path.0, true), rest[1..]))
    else if rest[0] == 'F' then Some((Channel(id.0, name.0, host.0, path.0, false), rest[1..]))
    else None
  }

  /** Reads a whole channel list; None when the text is not one. */
  function DecodeChannels(s: string): Option<seq<Channel>>
    decreases |s|
  {
    if s == [] then Some([])
    else
      var first :- DecodeChannel(s);
      var rest :- DecodeChannels(first.1);
      Some([first.0] + rest)
  }

  /** A digit run followed by a non-digit is measured exactly. */
  lemma {:induction false} DigitRunOfDigits(d: string, rest: string)
    requires AllDigits(d) && |rest| > 0 && !IsDigit(rest[0])
    ensures DigitRun(d + rest) == |d|
  {
    if d != [] {
      assert (d + rest)[1..] == d[1..] + rest;
      DigitRunOfDigits(d[1..], rest);
    }
  }

  lemma DecodeEncodeField(x: string, rest: string)
    ensures DecodeField(EncodeField(x) + rest) == Some((x, rest))
  {
    var d := NatToString(|x|);
    var s := EncodeField(x) + rest;
    assert s == d + (":" + x + rest);
    DigitRunOfDigits(d, ":" + x + rest);
    assert s[..|d|] == d;
    ParseNatToString(|x|);
    assert s[|d| + 1..|d| + 1 + |x|] == x;
    assert s[|d| + 1 + |x|..] == rest;
  }

  /** A channel's text is its four fields one after the other, then its
      flag. */
  lemma EncodeChannelFields(c: Channel, rest: string)
    ensures EncodeChannel(c) + rest ==
      EncodeField(c.id) + (EncodeField(c.name) + (EncodeField(c.host) + (EncodeField(c.path)
        + ([if c.useMp4 then 'T' else 'F'] + rest))))
  {
  }

  /** Four fields read in turn, then a flag, make one channel. */
  lemma DecodeChannelOfFields(s: string, n: string, h: string, p: string, f: char, rest: string,
                              id: string, name: string, host: string, path: string)
    requires DecodeField(s) == Some((id, n)) && DecodeField(n) == Some((name, h))
    requires DecodeField(h) == Some((host, p)) && DecodeField(p) == Some((path, [f] + rest))
    requires f == 'T' || f == 'F'
    ensures DecodeChannel(s) == Some((Channel(id, name, host, path, f == 'T'), rest))
  {
    assert ([f] + rest)[0] == f && ([f] + rest)[1..] == rest;
  }

  lemma DecodeEncodeChannel(c: Channel, rest: string)
    ensures DecodeChannel(EncodeChannel(c) + rest) == Some((c, rest))
  {
    var f := if c.useMp4 then 'T' else 'F';
    var fr := [f] + rest;
    var p := EncodeField(c.path) + fr;
    var h := EncodeField(c.host) + p;
    var n := EncodeField(c.name) + h;
    EncodeChannelFields(c, rest);
    DecodeEncodeField(c.id, n);
    DecodeEncodeField(c.name, h);
    DecodeEncodeField(c.host, p);
    DecodeEncodeField(c.path, fr);
    DecodeChannelOfFields(EncodeField(c.id) + n, n, h, p, f, rest, c.id, c.name, c.host, c.path);
  }

  /** A list text that starts with a channel reads as that channel, then
      the list the rest reads as. */
  lemma DecodeChannelsStep(s: string, c: Channel, rest: string)
    requires DecodeChannel(s) == Some((c, rest))
    ensures DecodeChannels(s) ==
      if DecodeChannels(rest).Some? then Some([c] + DecodeChannels(rest).value) else None
  {
  }

  lemma ConsDecoded(s: string, c: Channel, rest: string, cs: seq<Channel>)
    requires DecodeChannel(s) == Some((c, rest)) && DecodeChannels(rest) == Some(cs)
    ensures DecodeChannels(s) == Some([c] + cs)
  {
    DecodeChannelsStep(s, c, rest);
  }

  /** Reading back the stored text of a channel list gives the same list. */
  lemma {:induction false} DecodeEncodeChannels(chs: seq<Channel>)
    ensures DecodeChannels(EncodeChannels(chs)) == Some(chs)
  {
    if chs != [] {
      var tail := EncodeChannels(chs[1..]);
      var s := EncodeChannels(chs);
      assert s == EncodeChannel(chs[0]) + tail;
      DecodeEncodeChannel(chs[0], tail);
      DecodeEncodeChannels(chs[1..]);
      ConsDecoded(s, chs[0], tail, chs[1..]);
      assert chs == [chs[0]] + chs[1..];
    }
  }
}
