/** String helpers with the meaning of the JavaScript built-ins the
    application relies on: String.prototype.trim, the trailing-slash
    regular expression, the decimal form of a non-negative integer,
    zero-padded date fields, toLowerCase on ASCII, and the
    encodeURIComponent / decodeURIComponent pair. */
module Text {
  import opened Wrappers

  // ------------------------------------------------------------------
  // Whitespace and trim
  // ------------------------------------------------------------------

  /** The WhiteSpace and LineTerminator code points of ECMAScript: exactly
      what String.prototype.trim removes. */
  predicate IsJsWhitespace(c: char) {
    || c == '\t' || c == '\n' || c == '\U{B}' || c == '\U{C}' || c == '\r' || c == ' '
    || c == '\U{A0}' || c == '\U{1680}' || ('\U{2000}' <= c <= '\U{200A}')
    || c == '\U{2028}' || c == '\U{2029}' || c == '\U{202F}' || c == '\U{205F}'
    || c == '\U{3000}' || c == '\U{FEFF}'
  }

  predicate AllWhitespace(s: string) {
    forall i | 0 <= i < |s| :: IsJsWhitespace(s[i])
  }

  lemma AllWhitespaceCons(c: char, s: string)
    requires IsJsWhitespace(c) && AllWhitespace(s)
    ensures AllWhitespace([c] + s) && AllWhitespace(s + [c])
  {
    assert forall i | 0 < i < |[c] + s| :: ([c] + s)[i] == s[i - 1];
    assert forall i | 0 <= i < |s| :: (s + [c])[i] == s[i];
  }

  /** Drops the leading whitespace of s. */
  function TrimStart(s: string): (r: string)
    ensures |r| <= |s| && r == s[|s| - |r|..]
    ensures AllWhitespace(s[..|s| - |r|])
    ensures r == [] || !IsJsWhitespace(r[0])
  {
    if |s| > 0 && IsJsWhitespace(s[0]) then
      var r := TrimStart(s[1..]);
      assert s[..|s| - |r|] == [s[0]] + s[1..][..|s[1..]| - |r|];
      AllWhitespaceCons(s[0], s[1..][..|s[1..]| - |r|]);
      r
    else s
  }

  /** Drops the trailing whitespace of s. */
  function TrimEnd(s: string): (r: string)
    ensures |r| <= |s| && r == s[..|r|]
    ensures AllWhitespace(s[|r|..])
    ensures r == [] || !IsJsWhitespace(r[|r| - 1])
  {
    if |s| > 0 && IsJsWhitespace(s[|s| - 1]) then
      var r := TrimEnd(s[..|s| - 1]);
      assert s[|r|..] == s[..|s| - 1][|r|..] + [s[|s| - 1]];
      AllWhitespaceCons(s[|s| - 1], s[..|s| - 1][|r|..]);
      r
    else s
  }

  /** String.prototype.trim: the infix of s left once the whitespace at
      both ends is removed, itself starting and ending with a
      non-whitespace character. */
  function Trim(s: string): (r: string)
    ensures exists i, j :: 0 <= i <= j <= |s| && r == s[i..j] && AllWhitespace(s[..i]) && AllWhitespace(s[j..])
    ensures r == [] || (!IsJsWhitespace(r[0]) && !IsJsWhitespace(r[|r| - 1]))
  {
    var t := TrimStart(s);
    var r := TrimEnd(t);
    TrimBounds(s, t, r);
    r
  }

  /** The two trims together cut whitespace off both ends of s. */
  lemma TrimBounds(s: string, t: string, r: string)
    requires |t| <= |s| && t == s[|s| - |t|..] && AllWhitespace(s[..|s| - |t|])
    requires |r| <= |t| && r == t[..|r|] && AllWhitespace(t[|r|..])
    ensures var i := |s| - |t|; var j := i + |r|;
      0 <= i <= j <= |s| && r == s[i..j] && AllWhitespace(s[..i]) && AllWhitespace(s[j..])
  {
    var i := |s| - |t|;
    var j := i + |r|;
    assert s[i..j] == r;
    assert s[j..] == t[|r|..];
  }

  /** A field is empty after trimming exactly when it held only whitespace. */
  lemma TrimEmptyIff(s: string)
    ensures Trim(s) == [] <==> AllWhitespace(s)
  {
    var t := TrimStart(s);
    var i := |s| - |t|;
    assert t == [] || t[0] == s[i];
    if Trim(s) == [] {
      assert t[0..] == t;
      AllWhitespaceJoin(s[..i], t);
      assert s[..i] + t == s;
    }
  }

  lemma AllWhitespaceJoin(a: string, b: string)
    requires AllWhitespace(a) && AllWhitespace(b)
    ensures AllWhitespace(a + b)
  {
    forall k | 0 <= k < |a + b| ensures IsJsWhitespace((a + b)[k]) {
      if k < |a| { assert (a + b)[k] == a[k]; } else { assert (a + b)[k] == b[k - |a|]; }
    }
  }

  /** Trimming a trimmed string changes nothing. */
  lemma TrimIdempotent(s: string)
    ensures Trim(Trim(s)) == Trim(s)
  {
  }

  // ------------------------------------------------------------------
  // Prefixes, suffixes and the trailing slash
  // ------------------------------------------------------------------

  predicate StartsWith(s: string, prefix: string) {
    |prefix| <= |s| && s[..|prefix|] == prefix
  }

  predicate EndsWith(s: string, suffix: string) {
    |suffix| <= |s| && s[|s| - |suffix|..] == suffix
  }

  /** `s.replace(/\/$/, '')`, and equally `s.endsWith('/') ? s.slice(0, -1) : s`:
      exactly one trailing '/' is removed when there is one. */
  function StripTrailingSlash(s: string): (r: string)
    ensures s == r + "/" || (r == s && !EndsWith(s, "/"))
  {
    if |s| > 0 && s[|s| - 1] == '/' then s[..|s| - 1] else s
  }

  // ------------------------------------------------------------------
  // Decimal digits
  // ------------------------------------------------------------------

  predicate IsDigit(c: char) {
    '0' <= c <= '9'
  }

  predicate AllDigits(s: string) {
    forall i | 0 <= i < |s| :: IsDigit(s[i])
  }

  function DigitChar(d: nat): (c: char)
    requires d < 10
    ensures IsDigit(c)
  {
    (d + '0' as int) as char
  }

  function DigitValue(c: char): (d: nat)
    requires IsDigit(c)
    ensures d < 10
  {
    c as int - '0' as int
  }

  /** The number a run of decimal digits denotes (the reading side of
      every decimal field in the model). */
  function ParseDigits(s: string): nat
    requires AllDigits(s)
  {
    if s == [] then 0 else 10 * ParseDigits(s[..|s| - 1]) + DigitValue(s[|s| - 1])
  }

  /** The decimal form JavaScript gives a non-negative integer in a
      template literal: digits only, no leading zero. */
  function NatToString(n: nat): (r: string)
    ensures 1 <= |r| && AllDigits(r)
    ensures |r| > 1 ==> r[0] != '0'
  {
    if n < 10 then [DigitChar(n)] else NatToString(n / 10) + [DigitChar(n % 10)]
  }

  /** The decimal form JavaScript gives any integer in a template
      literal: a '-' before the digits of a negative number. */
  function IntToString(n: int): (r: string)
    ensures n >= 0 ==> r == NatToString(n)
    ensures n < 0 ==> r == "-" + NatToString(-n)
  {
    if n >= 0 then NatToString(n) else "-" + NatToString(-n)
  }

  /** Reading back the decimal form gives the number. */
  lemma {:induction false} ParseNatToString(n: nat)
    ensures ParseDigits(NatToString(n)) == n
  {
    if n >= 10 {
      var p := NatToString(n / 10);
      var r := p + [DigitChar(n % 10)];
      assert r[..|r| - 1] == p;
      ParseNatToString(n / 10);
    } else {
      assert [DigitChar(n)][..0] == [];
    }
  }

  /** Distinct numbers have distinct decimal forms. */
  lemma NatToStringInjective(m: nat, n: nat)
    requires NatToString(m) == NatToString(n)
    ensures m == n
  {
    ParseNatToString(m);
    ParseNatToString(n);
  }

  function Pow10(k: nat): (p: nat)
    ensures p >= 1
  {
    if k == 0 then 1 else 10 * Pow10(k - 1)
  }

  /** n written with exactly `width` digits, zero-padded on the left (the
      fields of an ISO-8601 timestamp). */
  function PadDigits(n: nat, width: nat): (r: string)
    requires n < Pow10(width)
    ensures |r| == width && AllDigits(r)
  {
    if width == 0 then [] else PadDigits(n / 10, width - 1) + [DigitChar(n % 10)]
  }

  /** Reading back a zero-padded field gives the number. */
  lemma {:induction false} ParsePadDigits(n: nat, width: nat)
    requires n < Pow10(width)
    ensures ParseDigits(PadDigits(n, width)) == n
  {
    if width > 0 {
      var p := PadDigits(n / 10, width - 1);
      var r := p + [DigitChar(n % 10)];
      assert r[..|r| - 1] == p;
      ParsePadDigits(n / 10, width - 1);
    }
  }

  // ------------------------------------------------------------------
  // Character replacement and ASCII case
  // ------------------------------------------------------------------

  /** `s.replace(/[:.]/g, '-')`. */
  function ReplaceColonsAndDots(s: string): (r: string)
    ensures |r| == |s|
    ensures forall i | 0 <= i < |r| :: r[i] != ':' && r[i] != '.'
    ensures forall i | 0 <= i < |s| :: s[i] != ':' && s[i] != '.' ==> r[i] == s[i]
    ensures forall i | 0 <= i < |s| :: (s[i] == ':' || s[i] == '.') ==> r[i] == '-'
  {
    if s == [] then []
    else [if s[0] == ':' || s[0] == '.' then '-' else s[0]] + ReplaceColonsAndDots(s[1..])
  }

  function LowerChar(c: char): char {
    if 'A' <= c <= 'Z' then (c as int + 32) as char else c
  }

  /** toLowerCase restricted to the ASCII letters. */
  function AsciiLower(s: string): (r: string)
    ensures |r| == |s|
    ensures forall i | 0 <= i < |s| :: r[i] == LowerChar(s[i])
  {
    if s == [] then [] else [LowerChar(s[0])] + AsciiLower(s[1..])
  }

  // ------------------------------------------------------------------
  // encodeURIComponent / decodeURIComponent
  // ------------------------------------------------------------------

  /** The characters encodeURIComponent leaves as they are. */
  predicate IsUnreserved(c: char) {
    || ('A' <= c <= 'Z') || ('a' <= c <= 'z') || ('0' <= c <= '9')
    || c == '-' || c == '_' || c == '.' || c == '!' || c == '~' || c == '*'
    || c == '\'' || c == '(' || c == ')'
  }

  predicate IsHexDigit(c: char) {
    ('0' <= c <= '9') || ('A' <= c <= 'F') || ('a' <= c <= 'f')
  }

  /** An upper-case hexadecimal digit, as encodeURIComponent writes them. */
  function HexDigit(d: nat): (c: char)
    requires d < 16
    ensures IsHexDigit(c) && IsUnreserved(c)
  {
    if d < 10 then (d + 48) as char else (d + 55) as char
  }

  /** The value of a hexadecimal digit of either case. */
  function HexValue(c: char): (d: nat)
    requires IsHexDigit(c)
    ensures d < 16
  {
    if '0' <= c <= '9' then c as int - 48
    else if 'A' <= c <= 'F' then c as int - 55
    else c as int - 87
  }

  predicate AllOctets(bs: seq<nat>) {
    forall i | 0 <= i < |bs| :: bs[i] < 256
  }

  /** The UTF-8 encoding of one Unicode scalar value. */
  function Utf8(c: char): (bs: seq<nat>)
    ensures 1 <= |bs| <= 4 && AllOctets(bs)
  {
    var cp := c as int;
    if cp < 0x80 then [cp]
    else if cp < 0x800 then [0xC0 + cp / 64, 0x80 + cp % 64]
    else if cp < 0x10000 then [0xE0 + cp / 4096, 0x80 + (cp / 64) % 64, 0x80 + cp % 64]
    else [0xF0 + cp / 262144, 0x80 + (cp / 4096) % 64, 0x80 + (cp / 64) % 64, 0x80 + cp % 64]
  }

  /** "%HH" for one octet. */
  function PercentOctet(b: nat): (r: string)
    requires b < 256
    ensures |r| == 3
  {
    ['%', HexDigit(b / 16), HexDigit(b % 16)]
  }

  function PercentOctets(bs: seq<nat>): (r: string)
    requires AllOctets(bs)
    ensures |r| == 3 * |bs|
    ensures forall i | 0 <= i < |r| :: IsUnreserved(r[i]) || r[i] == '%'
  {
    if bs == [] then [] else PercentOctet(bs[0]) + PercentOctets(bs[1..])
  }

  function EncodeChar(c: char): (r: string)
    ensures 1 <= |r|
  {
    if IsUnreserved(c) then [c] else PercentOctets(Utf8(c))
  }

  /** encodeURIComponent: every character outside the unreserved set is
      replaced by the %HH escapes of its UTF-8 octets, so the result uses
      only unreserved characters and '%'. */
  function EncodeUriComponent(s: string): (r: string)
    ensures forall i | 0 <= i < |r| :: IsUnreserved(r[i]) || r[i] == '%'
  {
    if s == [] then [] else EncodeChar(s[0]) + EncodeUriComponent(s[1..])
  }

  /** The octet written as "%HH" at the start of s, if there is one. */
  function Octet(s: string): Option<nat> {
    if 3 <= |s| && s[0] == '%' && IsHexDigit(s[1]) && IsHexDigit(s[2])
    then Some(16 * HexValue(s[1]) + HexValue(s[2]))
    else None
  }

  predicate IsContinuation(b: nat) {
    0x80 <= b < 0xC0
  }

  /** Decodes the escape sequence at the start of s: the character and the
      number of code units it spans. None is the URIError of the
      decoder: a malformed escape, a bad lead or continuation octet, an
      over-long form, a surrogate or a value above U+10FFFF. */
  function DecodeEscape(s: string): (r: Option<(char, nat)>)
    ensures r.Some? ==> 3 <= r.value.1 <= |s|
  {
    match Octet(s)
    case None => None
    case Some(b0) =>
      if b0 < 0x80 then Some((b0 as char, 3))
      else if 0xC0 <= b0 < 0xE0 then
        match Octet(s[3..])
        case None => None
        case Some(b1) =>
          if !IsContinuation(b1) then None
          else
            var cp := (b0 - 0xC0) * 64 + (b1 - 0x80);
            if cp < 0x80 then None else Some((cp as char, 6))
      else if 0xE0 <= b0 < 0xF0 then
        match Octet(s[3..])
        case None => None
        case Some(b1) =>
          match Octet(s[6..])
          case None => None
          case Some(b2) =>
            if !IsContinuation(b1) || !IsContinuation(b2) then None
            else
              var cp := ((b0 - 0xE0) * 64 + (b1 - 0x80)) * 64 + (b2 - 0x80);
              if cp < 0x800 || (0xD800 <= cp < 0xE000) then None else Some((cp as char, 9))
      else if 0xF0 <= b0 < 0xF8 then
        match Octet(s[3..])
        case None => None
        case Some(b1) =>
          match Octet(s[6..])
          case None => None
          case Some(b2) =>
            match Octet(s[9..])
            case None => None
            case Some(b3) =>
              if !IsContinuation(b1) || !IsContinuation(b2) || !IsContinuation(b3) then None
              else
                var cp := (((b0 - 0xF0) * 64 + (b1 - 0x80)) * 64 + (b2 - 0x80)) * 64 + (b3 - 0x80);
                if cp < 0x10000 || cp > 0x10FFFF then None else Some((cp as char, 12))
      else None
  }

  /** decodeURIComponent: None is the URIError it throws. */
  function DecodeUriComponent(s: string): Option<string>
    decreases |s|
  {
    if s == [] then Some([])
    else if s[0] != '%' then
      match DecodeUriComponent(s[1..])
      case None => None
      case Some(t) => Some([s[0]] + t)
    else
      match DecodeEscape(s)
      case None => None
      case Some(e) =>
        match DecodeUriComponent(s[e.1..])
        case None => None
        case Some(t) => Some([e.0] + t)
  }

  lemma OctetOfPercentOctet(b: nat, rest: string)
    requires b < 256
    ensures Octet(PercentOctet(b) + rest) == Some(b)
  {
    var s := PercentOctet(b) + rest;
    assert s[1] == HexDigit(b / 16) && s[2] == HexDigit(b % 16);
  }

  lemma DivSteps(x: nat)
    ensures x / 4096 == (x / 64) / 64
    ensures x / 262144 == (x / 4096) / 64
  {
  }

  lemma PercentOctetsOfTwo(bs: seq<nat>)
    requires AllOctets(bs) && |bs| == 2
    ensures PercentOctets(bs) == PercentOctet(bs[0]) + PercentOctet(bs[1])
  {
    assert PercentOctets(bs[1..]) == PercentOctet(bs[1]) + PercentOctets(bs[2..]);
  }

  lemma PercentOctetsOfThree(bs: seq<nat>)
    requires AllOctets(bs) && |bs| == 3
    ensures PercentOctets(bs) == PercentOctet(bs[0]) + PercentOctet(bs[1]) + PercentOctet(bs[2])
  {
    PercentOctetsOfTwo(bs[1..]);
  }

  lemma PercentOctetsOfFour(bs: seq<nat>)
    requires AllOctets(bs) && |bs| == 4
    ensures PercentOctets(bs) == PercentOctet(bs[0]) + PercentOctet(bs[1]) + PercentOctet(bs[2]) + PercentOctet(bs[3])
  {
    PercentOctetsOfThree(bs[1..]);
  }

  lemma DecodeEscapeOneOctet(c: char, rest: string)
    requires !IsUnreserved(c) && c as int < 0x80
    ensures DecodeEscape(EncodeChar(c) + rest) == Some((c, 3))
  {
    var bs := Utf8(c);
    assert PercentOctets(bs) == PercentOctet(bs[0]) + PercentOctets(bs[1..]);
    OctetOfPercentOctet(bs[0], rest);
  }

  lemma TwoOctetArithmetic(cp: int)
    requires 0x80 <= cp < 0x800
    ensures var b0, b1 := 0xC0 + cp / 64, 0x80 + cp % 64;
      && 0xC0 <= b0 < 0xE0 && IsContinuation(b1)
      && (b0 - 0xC0) * 64 + (b1 - 0x80) == cp
  {
  }

  lemma DecodeEscapeOfTwoOctets(s: string, b0: nat, b1: nat)
    requires Octet(s) == Some(b0) && Octet(s[3..]) == Some(b1)
    requires 0xC0 <= b0 < 0xE0 && IsContinuation(b1)
    requires 0x80 <= (b0 - 0xC0) * 64 + (b1 - 0x80)
    ensures DecodeEscape(s) == Some((((b0 - 0xC0) * 64 + (b1 - 0x80)) as char, 6))
  {
  }

  lemma OctetsOfTwoEscapes(b0: nat, b1: nat, rest: string)
    requires b0 < 256 && b1 < 256
    ensures var s := PercentOctet(b0) + PercentOctet(b1) + rest;
      && 6 <= |s| && Octet(s) == Some(b0) && Octet(s[3..]) == Some(b1)
  {
    var t1 := PercentOctet(b1) + rest;
    var s := PercentOctet(b0) + PercentOctet(b1) + rest;
    assert s == PercentOctet(b0) + t1;
    assert s[3..] == t1;
    OctetOfPercentOctet(b0, t1);
    OctetOfPercentOctet(b1, rest);
  }

  lemma DecodeEscapeTwoOctets(c: char, rest: string)
    requires 0x80 <= c as int < 0x800
    ensures DecodeEscape(EncodeChar(c) + rest) == Some((c, 6))
  {
    var cp := c as int;
    var bs := Utf8(c);
    var b0, b1 := bs[0], bs[1];
    PercentOctetsOfTwo(bs);
    var s := EncodeChar(c) + rest;
    assert s == PercentOctet(b0) + PercentOctet(b1) + rest;
    OctetsOfTwoEscapes(b0, b1, rest);
    TwoOctetArithmetic(cp);
    DecodeEscapeOfTwoOctets(s, b0, b1);
  }

  lemma ThreeOctetArithmetic(cp: int)
    requires 0x800 <= cp < 0x10000
    ensures var b0, b1, b2 := 0xE0 + cp / 4096, 0x80 + (cp / 64) % 64, 0x80 + cp % 64;
      && 0xE0 <= b0 < 0xF0 && IsContinuation(b1) && IsContinuation(b2)
      && ((b0 - 0xE0) * 64 + (b1 - 0x80)) * 64 + (b2 - 0x80) == cp
  {
    DivSteps(cp);
  }

  lemma DecodeEscapeOfThreeOctets(s: string, b0: nat, b1: nat, b2: nat)
    requires Octet(s) == Some(b0) && Octet(s[3..]) == Some(b1)
    requires 6 <= |s| && Octet(s[6..]) == Some(b2)
    requires 0xE0 <= b0 < 0xF0 && IsContinuation(b1) && IsContinuation(b2)
    requires var cp := ((b0 - 0xE0) * 64 + (b1 - 0x80)) * 64 + (b2 - 0x80);
      0x800 <= cp < 0x10000 && !(0xD800 <= cp < 0xE000)
    ensures var cp := ((b0 - 0xE0) * 64 + (b1 - 0x80)) * 64 + (b2 - 0x80);
      DecodeEscape(s) == Some((cp as char, 9))
  {
  }

  lemma OctetsOfThreeEscapes(b0: nat, b1: nat, b2: nat, rest: string)
    requires b0 < 256 && b1 < 256 && b2 < 256
    ensures var s := PercentOctet(b0) + PercentOctet(b1) + PercentOctet(b2) + rest;
      && 9 <= |s|
      && Octet(s) == Some(b0) && Octet(s[3..]) == Some(b1) && Octet(s[6..]) == Some(b2)
  {
    var t2 := PercentOctet(b2) + rest;
    var t1 := PercentOctet(b1) + t2;
    var s := PercentOctet(b0) + PercentOctet(b1) + PercentOctet(b2) + rest;
    assert s == PercentOctet(b0) + t1;
    assert s[3..] == t1;
    assert s[6..] == t2;
    OctetOfPercentOctet(b0, t1);
    OctetOfPercentOctet(b1, t2);
    OctetOfPercentOctet(b2, rest);
  }

  lemma DecodeEscapeThreeOctets(c: char, rest: string)
    requires 0x800 <= c as int < 0x10000
    ensures DecodeEscape(EncodeChar(c) + rest) == Some((c, 9))
  {
    var cp := c as int;
    var bs := Utf8(c);
    var b0, b1, b2 := bs[0], bs[1], bs[2];
    PercentOctetsOfThree(bs);
    var s := EncodeChar(c) + rest;
    assert s == PercentOctet(b0) + PercentOctet(b1) + PercentOctet(b2) + rest;
    OctetsOfThreeEscapes(b0, b1, b2, rest);
    ThreeOctetArithmetic(cp);
    DecodeEscapeOfThreeOctets(s, b0, b1, b2);
  }

  lemma FourOctetArithmetic(cp: int)
    requires 0x10000 <= cp <= 0x10FFFF
    ensures var b0, b1, b2, b3 := 0xF0 + cp / 262144, 0x80 + (cp / 4096) % 64, 0x80 + (cp / 64) % 64, 0x80 + cp % 64;
      && 0xF0 <= b0 < 0xF8 && IsContinuation(b1) && IsContinuation(b2) && IsContinuation(b3)
      && (((b0 - 0xF0) * 64 + (b1 - 0x80)) * 64 + (b2 - 0x80)) * 64 + (b3 - 0x80) == cp
  {
    DivSteps(cp);
  }

  lemma DecodeEscapeOfFourOctets(s: string, b0: nat, b1: nat, b2: nat, b3: nat)
    requires Octet(s) == Some(b0) && Octet(s[3..]) == Some(b1)
    requires 6 <= |s| && Octet(s[6..]) == Some(b2)
    requires 9 <= |s| && Octet(s[9..]) == Some(b3)
    requires 0xF0 <= b0 < 0xF8 && IsContinuation(b1) && IsContinuation(b2) && IsContinuation(b3)
    requires 0x10000 <= (((b0 - 0xF0) * 64 + (b1 - 0x80)) * 64 + (b2 - 0x80)) * 64 + (b3 - 0x80) <= 0x10FFFF
    ensures var cp := (((b0 - 0xF0) * 64 + (b1 - 0x80)) * 64 + (b2 - 0x80)) * 64 + (b3 - 0x80);
      DecodeEscape(s) == Some((cp as char, 12))
  {
  }

  lemma OctetsOfFourEscapes(b0: nat, b1: nat, b2: nat, b3: nat, rest: string)
    requires b0 < 256 && b1 < 256 && b2 < 256 && b3 < 256
    ensures var s := PercentOctet(b0) + PercentOctet(b1) + PercentOctet(b2) + PercentOctet(b3) + rest;
      && 12 <= |s|
      && Octet(s) == Some(b0) && Octet(s[3..]) == Some(b1)
      && Octet(s[6..]) == Some(b2) && Octet(s[9..]) == Some(b3)
  {
    var t3 := PercentOctet(b3) + rest;
    var t2 := PercentOctet(b2) + t3;
    var t1 := PercentOctet(b1) + t2;
    var s := PercentOctet(b0) + PercentOctet(b1) + PercentOctet(b2) + PercentOctet(b3) + rest;
    assert s == PercentOctet(b0) + t1;
    assert s[3..] == t1;
    assert s[6..] == t2;
    assert s[9..] == t3;
    OctetOfPercentOctet(b0, t1);
    OctetOfPercentOctet(b1, t2);
    OctetOfPercentOctet(b2, t3);
    OctetOfPercentOctet(b3, rest);
  }

  lemma DecodeEscapeFourOctets(c: char, rest: string)
    requires 0x10000 <= c as int
    ensures DecodeEscape(EncodeChar(c) + rest) == Some((c, 12))
  {
    var cp := c as int;
    var bs := Utf8(c);
    var b0, b1, b2, b3 := bs[0], bs[1], bs[2], bs[3];
    PercentOctetsOfFour(bs);
    var s := EncodeChar(c) + rest;
    assert s == PercentOctet(b0) + PercentOctet(b1) + PercentOctet(b2) + PercentOctet(b3) + rest;
    OctetsOfFourEscapes(b0, b1, b2, b3, rest);
    FourOctetArithmetic(cp);
    DecodeEscapeOfFourOctets(s, b0, b1, b2, b3);
  }

  /** Decoding the escapes of a character that is not unreserved gives the
      character back and consumes exactly its escapes. */
  lemma DecodeEscapeOfEncodeChar(c: char, rest: string)
    requires !IsUnreserved(c)
    ensures DecodeEscape(EncodeChar(c) + rest) == Some((c, |EncodeChar(c)|))
  {
    var cp := c as int;
    if cp < 0x80 {
      DecodeEscapeOneOctet(c, rest);
    } else if cp < 0x800 {
      DecodeEscapeTwoOctets(c, rest);
    } else if cp < 0x10000 {
      DecodeEscapeThreeOctets(c, rest);
    } else {
      DecodeEscapeFourOctets(c, rest);
    }
  }

  /** Decoding text that starts with an unreserved character. */
  lemma DecodePlainHead(c: char, tail: string)
    requires c != '%'
    ensures DecodeUriComponent([c] + tail) ==
      if DecodeUriComponent(tail).Some? then Some([c] + DecodeUriComponent(tail).value) else None
  {
    assert ([c] + tail)[1..] == tail;
  }

  /** Decoding text that starts with the escapes of a character. */
  lemma DecodeEscapedHead(c: char, tail: string)
    requires !IsUnreserved(c)
    ensures DecodeUriComponent(EncodeChar(c) + tail) ==
      if DecodeUriComponent(tail).Some? then Some([c] + DecodeUriComponent(tail).value) else None
  {
    var head := EncodeChar(c);
    var e := head + tail;
    DecodeEscapeOfEncodeChar(c, tail);
    assert e[0] == '%';
    assert e[|head|..] == tail;
  }

  /** decodeURIComponent undoes encodeURIComponent on every string. */
  lemma {:induction false} DecodeEncodeUriComponent(s: string)
    ensures DecodeUriComponent(EncodeUriComponent(s)) == Some(s)
  {
    if s != [] {
      var tail := EncodeUriComponent(s[1..]);
      assert EncodeUriComponent(s) == EncodeChar(s[0]) + tail;
      DecodeEncodeUriComponent(s[1..]);
      if IsUnreserved(s[0]) {
        DecodePlainHead(s[0], tail);
      } else {
        DecodeEscapedHead(s[0], tail);
      }
      assert s == [s[0]] + s[1..];
    }
  }

  /** A string of unreserved characters is its own encoding. */
  lemma {:induction false} EncodeUnreservedIdentity(s: string)
    requires forall i | 0 <= i < |s| :: IsUnreserved(s[i])
    ensures EncodeUriComponent(s) == s
  {
    if s != [] {
      EncodeUnreservedIdentity(s[1..]);
      assert s == [s[0]] + s[1..];
    }
  }

  /** The encoded form never contains the characters that delimit a URL
      query ('&', '=', '#', '?', '/', ' '), so a value placed in a query
      cannot split it. */
  lemma EncodedHasNoDelimiters(s: string)
    ensures forall i | 0 <= i < |EncodeUriComponent(s)| ::
      EncodeUriComponent(s)[i] !in "&=#?/ "
  {
  }
}
