/** The request URLs the page builds with template literals, and a reading
    of their query strings (split at '&', then at the first '=', values
    percent-decoded) so that what a URL carries can be stated. */
module Urls {
  import opened Wrappers
  import opened Text

  /** `key=` followed by the value passed through encodeURIComponent. */
  function Param(key: string, value: string): string {
    key + "=" + EncodeUriComponent(value)
  }

  /** The query of the recording-list request: path, start and end, every
      value passed through encodeURIComponent. */
  function ListQuery(path: string, start: string, end: string): string {
    Param("path", path) + "&" + Param("start", start) + "&" + Param("end", end)
  }

  /** `${host}/list?path=…&start=…&end=…`: the recording-list request. */
  function ListUrl(host: string, path: string, start: string, end: string): string {
    host + "/list?" + ListQuery(path, start, end)
  }

  /** The query of the playback request: path and start encoded, the
      duration as it is (it is not encoded), then `format=mp4` when asked for. */
  function GetQuery(path: string, start: string, duration: string, mp4: bool): string {
    Param("path", path) + "&" + Param("start", start) + "&duration=" + duration
      + (if mp4 then "&format=mp4" else "")
  }

  /** `${host}/get?path=…&start=…&duration=${duration}`, plus `&format=mp4`
      when asked for: the playback request. */
  function GetUrl(host: string, path: string, start: string, duration: string, mp4: bool): string {
    host + "/get?" + GetQuery(path, start, duration, mp4)
  }

  /** The pieces of s between the occurrences of c. */
  function SplitOn(s: string, c: char): (r: seq<string>)
    ensures |r| >= 1
  {
    if s == [] then [""]
    else
      var rest := SplitOn(s[1..], c);
      if s[0] == c then [""] + rest else [[s[0]] + rest[0]] + rest[1..]
  }

  /** The text before the first c, and the text after it when c occurs. */
  function BreakAt(s: string, c: char): (r: (string, Option<string>))
  {
    if s == [] then ("", None)
    else if s[0] == c then ("", Some(s[1..]))
    else
      var rest := BreakAt(s[1..], c);
      ([s[0]] + rest.0, rest.1)
  }

  /** One query parameter: its name, and its percent-decoded value (None
      when there is no '=' or the value does not decode). */
  function ParseParam(p: string): (string, Option<string>) {
    var kv := BreakAt(p, '=');
    (kv.0, if kv.1.None? then None else DecodeUriComponent(kv.1.value))
  }

  function ParseParams(parts: seq<string>): (r: seq<(string, Option<string>)>)
    ensures |r| == |parts|
    ensures forall i | 0 <= i < |parts| :: r[i] == ParseParam(parts[i])
  {
    if parts == [] then [] else [ParseParam(parts[0])] + ParseParams(parts[1..])
  }

  function ParseQuery(q: string): seq<(string, Option<string>)> {
    ParseParams(SplitOn(q, '&'))
  }

  lemma {:induction false} SplitOnWithout(a: string, c: char)
    requires c !in a
    ensures SplitOn(a, c) == [a]
  {
    if a != [] {
      SplitOnWithout(a[1..], c);
      assert a == [a[0]] + a[1..];
    }
  }

  lemma {:induction false} SplitOnFirst(a: string, b: string, c: char)
    requires c !in a
    ensures SplitOn(a + [c] + b, c) == [a] + SplitOn(b, c)
  {
    var s := a + [c] + b;
    if a == [] {
      assert s[1..] == b;
    } else {
      assert s[1..] == a[1..] + [c] + b;
      SplitOnFirst(a[1..], b, c);
      assert a == [a[0]] + a[1..];
    }
  }

  lemma {:induction false} BreakAtFirst(a: string, b: string, c: char)
    requires c !in a
    ensures BreakAt(a + [c] + b, c) == (a, Some(b))
  {
    var s := a + [c] + b;
    if a == [] {
      assert s[1..] == b;
    } else {
      assert s[1..] == a[1..] + [c] + b;
      BreakAtFirst(a[1..], b, c);
      assert a == [a[0]] + a[1..];
    }
  }

  /** A parameter whose value was encoded reads back as the value. */
  lemma ParseEncodedParam(key: string, value: string)
    requires '=' !in key
    ensures ParseParam(Param(key, value)) == (key, Some(value))
  {
    BreakAtFirst(key, EncodeUriComponent(value), '=');
    assert key + "=" + EncodeUriComponent(value) == key + ['='] + EncodeUriComponent(value);
    DecodeEncodeUriComponent(value);
  }

  /** A string of unreserved characters decodes to itself. */
  lemma DecodeUnreserved(s: string)
    requires forall i | 0 <= i < |s| :: IsUnreserved(s[i])
    ensures DecodeUriComponent(s) == Some(s)
  {
    EncodeUnreservedIdentity(s);
    DecodeEncodeUriComponent(s);
  }

  lemma NoAmpersandInParam(key: string, value: string)
    requires '&' !in key
    ensures '&' !in Param(key, value)
  {
    EncodedHasNoDelimiters(value);
  }

  /** A query starting with a piece without '&' reads as that piece's
      parameter followed by the rest of the query. */
  lemma ParseQueryCons(p: string, rest: string)
    requires '&' !in p
    ensures ParseQuery(p + "&" + rest) == [ParseParam(p)] + ParseQuery(rest)
  {
    assert p + "&" + rest == p + ['&'] + rest;
    SplitOnFirst(p, rest, '&');
    var parts := SplitOn(p + "&" + rest, '&');
    assert parts == [p] + SplitOn(rest, '&');
    assert ParseParams(parts) == [ParseParam(p)] + ParseParams(SplitOn(rest, '&'));
  }

  lemma ParseQuerySingle(p: string)
    requires '&' !in p
    ensures ParseQuery(p) == [ParseParam(p)]
  {
    SplitOnWithout(p, '&');
  }

  /** Two or three encoded parameters joined with '&' read back as themselves. */
  lemma ParseTwoParams(k1: string, v1: string, k2: string, v2: string)
    requires '&' !in k1 && '=' !in k1 && '&' !in k2 && '=' !in k2
    ensures ParseQuery(Param(k1, v1) + "&" + Param(k2, v2)) == [(k1, Some(v1)), (k2, Some(v2))]
  {
    NoAmpersandInParam(k1, v1);
    NoAmpersandInParam(k2, v2);
    ParseEncodedParam(k1, v1);
    ParseEncodedParam(k2, v2);
    ParseQueryCons(Param(k1, v1), Param(k2, v2));
    ParseQuerySingle(Param(k2, v2));
  }

  lemma ParseThreeParams(k1: string, v1: string, k2: string, v2: string, k3: string, v3: string)
    requires '&' !in k1 && '=' !in k1 && '&' !in k2 && '=' !in k2 && '&' !in k3 && '=' !in k3
    ensures ParseQuery(Param(k1, v1) + "&" + Param(k2, v2) + "&" + Param(k3, v3))
      == [(k1, Some(v1)), (k2, Some(v2)), (k3, Some(v3))]
  {
    var a, b, c := Param(k1, v1), Param(k2, v2), Param(k3, v3);
    assert a + "&" + b + "&" + c == a + "&" + (b + "&" + c);
    NoAmpersandInParam(k1, v1);
    ParseEncodedParam(k1, v1);
    ParseQueryCons(a, b + "&" + c);
    ParseTwoParams(k2, v2, k3, v3);
  }

  lemma ParseFourParams(k1: string, v1: string, k2: string, v2: string, k3: string, v3: string,
                        k4: string, v4: string)
    requires '&' !in k1 && '=' !in k1 && '&' !in k2 && '=' !in k2 && '&' !in k3 && '=' !in k3
    requires '&' !in k4 && '=' !in k4
    ensures ParseQuery(Param(k1, v1) + "&" + Param(k2, v2) + "&" + Param(k3, v3) + "&" + Param(k4, v4))
      == [(k1, Some(v1)), (k2, Some(v2)), (k3, Some(v3)), (k4, Some(v4))]
  {
    var a, b, c, d := Param(k1, v1), Param(k2, v2), Param(k3, v3), Param(k4, v4);
    assert a + "&" + b + "&" + c + "&" + d == a + "&" + (b + "&" + c + "&" + d);
    NoAmpersandInParam(k1, v1);
    ParseEncodedParam(k1, v1);
    ParseQueryCons(a, b + "&" + c + "&" + d);
    ParseThreeParams(k2, v2, k3, v3, k4, v4);
  }

  /** The recording-list URL is the host, `/list?`, and a query that reads
      back as exactly the path, start and end it was built from, whatever
      characters they hold. */
  lemma ListUrlQuery(host: string, path: string, start: string, end: string)
    ensures var u := ListUrl(host, path, start, end);
      var n := |host| + 6;
      |u| >= n && u[..n] == host + "/list?"
      && ParseQuery(u[n..]) == [("path", Some(path)), ("start", Some(start)), ("end", Some(end))]
  {
    var q := ListQuery(path, start, end);
    ParseThreeParams("path", path, "start", start, "end", end);
    assert (host + "/list?" + q)[|host| + 6..] == q;
  }

  /** The playback URL is the host, `/get?`, and a query that reads back as
      the path, start and duration, then `format=mp4` when asked for. This
      holds for durations written with unreserved characters only (digits
      and a decimal point, as the server sends them); a duration holding
      '&' or '=' would break the query, since it is not encoded. */
  lemma GetUrlQuery(host: string, path: string, start: string, duration: string, mp4: bool)
    requires forall i | 0 <= i < |duration| :: IsUnreserved(duration[i])
    ensures var u := GetUrl(host, path, start, duration, mp4);
      var n := |host| + 5;
      |u| >= n && u[..n] == host + "/get?"
      && ParseQuery(u[n..]) ==
        [("path", Some(path)), ("start", Some(start)), ("duration", Some(duration))]
        + (if mp4 then [("format", Some("mp4"))] else [])
  {
    var q := GetQuery(path, start, duration, mp4);
    GetQueryAsParams(path, start, duration, mp4);
    if mp4 {
      ParseFourParams("path", path, "start", start, "duration", duration, "format", "mp4");
    } else {
      ParseThreeParams("path", path, "start", start, "duration", duration);
    }
    assert (host + "/get?" + q)[|host| + 5..] == q;
  }

  /** With an unreserved duration, every piece of the playback query is an
      encoded parameter. */
  lemma GetQueryAsParams(path: string, start: string, duration: string, mp4: bool)
    requires forall i | 0 <= i < |duration| :: IsUnreserved(duration[i])
    ensures mp4 ==>
      GetQuery(path, start, duration, mp4)
        == Param("path", path) + "&" + Param("start", start) + "&" + Param("duration", duration) + "&" + Param("format", "mp4")
    ensures !mp4 ==>
      GetQuery(path, start, duration, mp4)
        == Param("path", path) + "&" + Param("start", start) + "&" + Param("duration", duration)
  {
    DurationParam(duration);
    FormatParam();
    JoinDuration(Param("path", path), Param("start", start), duration, Param("duration", duration), Param("format", "mp4"));
  }

  /** The concatenation steps behind GetQueryAsParams, over plain text. */
  lemma JoinDuration(a: string, b: string, duration: string, c: string, f: string)
    requires c == "duration=" + duration && f == "format=mp4"
    ensures a + "&" + b + "&duration=" + duration == a + "&" + b + "&" + c
    ensures a + "&" + b + "&duration=" + duration + "&format=mp4" == a + "&" + b + "&" + c + "&" + f
  {
    assert "&duration=" + duration == "&" + c;
  }

  lemma DurationParam(duration: string)
    requires forall i | 0 <= i < |duration| :: IsUnreserved(duration[i])
    ensures Param("duration", duration) == "duration=" + duration
  {
    EncodeUnreservedIdentity(duration);
  }

  lemma FormatParam()
    ensures Param("format", "mp4") == "format=mp4"
  {
    EncodeUnreservedIdentity("mp4");
  }
}
