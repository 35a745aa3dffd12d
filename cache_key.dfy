/**
 * The localStorage key of a translation:
 *   "translation_cache_" + lang + "_" + btoa(encodeURIComponent(original)) with every '=' removed.
 * encodeURIComponent keeps the unreserved characters and writes every other character as the
 * %XX escapes (upper-case hex) of its UTF-8 bytes; btoa is standard base64 (alphabet A-Z a-z 0-9 + /)
 * over the Latin-1 bytes of its argument. The decoders below exist to prove that the key
 * determines (lang, original): distinct pairs never share a key.
 */
module CacheKey {
  import opened Optional

  type Byte = b: int | 0 <= b < 256

  const Prefix: string := "translation_cache_"

  // ---------------------------------------------------------------- encodeURIComponent

  /** Characters encodeURIComponent leaves as they are. */
  predicate Unreserved(c: char) {
    ('A' <= c <= 'Z') || ('a' <= c <= 'z') || ('0' <= c <= '9') ||
    c == '-' || c == '_' || c == '.' || c == '!' || c == '~' || c == '*' || c == '\'' || c == '(' || c == ')'
  }

  /** The UTF-8 encoding of one scalar value, written with repeated division by 64. */
  function Utf8(c: char): (bs: seq<Byte>)
    ensures 1 <= |bs| <= 4
  {
    var n := c as int;
    var m1 := n / 64;
    var m2 := m1 / 64;
    var m3 := m2 / 64;
    if n < 0x80 then [n]
    else if n < 0x800 then [0xC0 + m1, 0x80 + n % 64]
    else if n < 0x10000 then [0xE0 + m2, 0x80 + m1 % 64, 0x80 + n % 64]
    else [0xF0 + m3, 0x80 + m2 % 64, 0x80 + m1 % 64, 0x80 + n % 64]
  }

  /** One unit of encodeURIComponent's output: a character kept as is, or one %XX escape. */
  datatype Unit = Plain(c: char) | Escaped(b: Byte)

  function EscapeAll(bs: seq<Byte>): (us: seq<Unit>)
    ensures |us| == |bs| && forall k :: 0 <= k < |bs| ==> us[k] == Escaped(bs[k])
  {
    if bs == [] then [] else [Escaped(bs[0])] + EscapeAll(bs[1..])
  }

  function CharUnits(c: char): seq<Unit> {
    if Unreserved(c) then [Plain(c)] else EscapeAll(Utf8(c))
  }

  /** A unit sequence encodeURIComponent can produce: its kept characters are unreserved. */
  ghost predicate PlainUnreserved(us: seq<Unit>) {
    forall k :: 0 <= k < |us| && us[k].Plain? ==> Unreserved(us[k].c)
  }

  function Units(s: string): (us: seq<Unit>)
    ensures PlainUnreserved(us)
  {
    if s == [] then [] else CharUnits(s[0]) + Units(s[1..])
  }

  function HexDigit(d: int): char
    requires 0 <= d < 16
  {
    if d < 10 then ('0' as int + d) as char else ('A' as int + d - 10) as char
  }

  function UnitText(u: Unit): string {
    match u
    case Plain(c) => [c]
    case Escaped(b) => ['%', HexDigit(b / 16), HexDigit(b % 16)]
  }

  /** Writes units out as text; the text is ASCII when every kept character is unreserved. */
  function Render(us: seq<Unit>): (r: string)
    ensures PlainUnreserved(us) ==> forall k :: 0 <= k < |r| ==> r[k] as int < 0x80
  {
    if us == [] then [] else UnitText(us[0]) + Render(us[1..])
  }

  /** encodeURIComponent on a string of scalar values: ASCII text that decodeURIComponent reads back as s. */
  function EncodeUriComponent(s: string): (r: string)
    ensures forall k :: 0 <= k < |r| ==> r[k] as int < 0x80
    ensures Unescape(r).Some? && DecodeUnits(Unescape(r).value) == Some(s)
  {
    UnitsRoundTrip(s);
    UnescapeRender(Units(s));
    Render(Units(s))
  }

  // ---------------------------------------------------------------- btoa and the '=' removal

  /** The base64 character for a 6-bit value. */
  function Sextet(i: int): (c: char)
    requires 0 <= i < 64
    ensures c != '=' && c != '_'
  {
    if i < 26 then ('A' as int + i) as char
    else if i < 52 then ('a' as int + i - 26) as char
    else if i < 62 then ('0' as int + i - 52) as char
    else if i == 62 then '+' else '/'
  }

  /** Standard base64 with '=' padding. */
  function Base64(bs: seq<Byte>): string {
    if |bs| == 0 then ""
    else if |bs| == 1 then [Sextet(bs[0] / 4), Sextet((bs[0] % 4) * 16)] + "=="
    else if |bs| == 2 then
      [Sextet(bs[0] / 4), Sextet((bs[0] % 4) * 16 + bs[1] / 16), Sextet((bs[1] % 16) * 4)] + "="
    else
      [Sextet(bs[0] / 4), Sextet((bs[0] % 4) * 16 + bs[1] / 16),
       Sextet((bs[1] % 16) * 4 + bs[2] / 64), Sextet(bs[2] % 64)] + Base64(bs[3..])
  }

  ghost predicate Latin1(s: string) {
    forall k :: 0 <= k < |s| ==> s[k] as int < 256
  }

  function Latin1Bytes(s: string): (bs: seq<Byte>)
    requires Latin1(s)
    ensures |bs| == |s| && forall k :: 0 <= k < |s| ==> bs[k] == s[k] as int
  {
    if s == [] then [] else [s[0] as int as Byte] + Latin1Bytes(s[1..])
  }

  /** btoa: base64 of the Latin-1 code units (it throws on anything wider, which never reaches it here). */
  function Btoa(s: string): (r: string)
    requires Latin1(s)
    ensures forall k :: 0 <= k < |r| ==> r[k] != '_'
    ensures DecodeBase64Unpadded(StripEquals(r)) == Some(Latin1Bytes(s))
  {
    Base64NoUnderscore(Latin1Bytes(s));
    Base64RoundTrip(Latin1Bytes(s));
    Base64(Latin1Bytes(s))
  }

  /** .replace(/=/g, ''): every '=' removed. */
  function StripEquals(s: string): (r: string)
    ensures forall k :: 0 <= k < |r| ==> r[k] != '='
  {
    if s == [] then [] else (if s[0] == '=' then [] else [s[0]]) + StripEquals(s[1..])
  }

  /**
   * The cache key of translator.js: a function of the target language and the original text
   * only, from which both read back.
   */
  function Key(lang: string, original: string): (key: string)
    ensures ParseKey(key) == Some((lang, original))
  {
    EncodedTextRoundTrip(original);
    ParseKeyOf(lang, StripEquals(Btoa(EncodeUriComponent(original))), original);
    Prefix + lang + "_" + StripEquals(Btoa(EncodeUriComponent(original)))
  }

  // ---------------------------------------------------------------- decoders

  function SextetValue(c: char): Option<int> {
    if 'A' <= c <= 'Z' then Some(c as int - 'A' as int)
    else if 'a' <= c <= 'z' then Some(c as int - 'a' as int + 26)
    else if '0' <= c <= '9' then Some(c as int - '0' as int + 52)
    else if c == '+' then Some(62)
    else if c == '/' then Some(63)
    else None
  }

  /** Base64 without padding, the length of the tail telling how many bytes it holds. */
  function DecodeBase64Unpadded(s: string): Option<seq<Byte>> {
    if |s| == 0 then Some([])
    else if |s| == 1 then None
    else
      var v0, v1 := SextetValue(s[0]), SextetValue(s[1]);
      if v0.None? || v1.None? || !(0 <= v0.value < 64 && 0 <= v1.value < 64) then None
      else if |s| == 2 then Some([v0.value * 4 + v1.value / 16])
      else
        var v2 := SextetValue(s[2]);
        if v2.None? || !(0 <= v2.value < 64) then None
        else if |s| == 3 then Some([v0.value * 4 + v1.value / 16, (v1.value % 16) * 16 + v2.value / 4])
        else
          var v3 := SextetValue(s[3]);
          if v3.None? || !(0 <= v3.value < 64) then None
          else match DecodeBase64Unpadded(s[4..])
            case None => None
            case Some(rest) =>
              Some([v0.value * 4 + v1.value / 16, (v1.value % 16) * 16 + v2.value / 4,
                    (v2.value % 4) * 64 + v3.value] + rest)
  }

  function Latin1Text(bs: seq<Byte>): (s: string)
    ensures |s| == |bs| && forall k :: 0 <= k < |bs| ==> s[k] as int == bs[k]
  {
    if bs == [] then [] else [bs[0] as char] + Latin1Text(bs[1..])
  }

  function HexValue(c: char): (v: Option<int>)
    ensures v.Some? ==> 0 <= v.value < 16
  {
    if '0' <= c <= '9' then Some(c as int - '0' as int)
    else if 'A' <= c <= 'F' then Some(c as int - 'A' as int + 10)
    else None
  }

  /** Splits percent-encoded text back into units. */
  function Unescape(s: string): Option<seq<Unit>> {
    if s == [] then Some([])
    else if s[0] == '%' then
      if |s| >= 3 && HexValue(s[1]).Some? && HexValue(s[2]).Some? then
        match Unescape(s[3..])
        case None => None
        case Some(rest) => Some([Escaped(HexValue(s[1]).value * 16 + HexValue(s[2]).value)] + rest)
      else None
    else
      match Unescape(s[1..])
      case None => None
      case Some(rest) => Some([Plain(s[0])] + rest)
  }

  /** How many bytes a UTF-8 sequence with this lead byte has (0 for a byte that cannot lead). */
  function SequenceLength(b: Byte): nat {
    if b < 0x80 then 1 else if 0xC0 <= b < 0xE0 then 2 else if 0xE0 <= b < 0xF0 then 3
    else if 0xF0 <= b < 0xF8 then 4 else 0
  }

  predicate IsContinuation(u: Unit) {
    u.Escaped? && 0x80 <= u.b < 0xC0
  }

  function Prepend(c: char, r: Option<string>): Option<string> {
    match r
    case None => None
    case Some(s) => Some([c] + s)
  }

  /** Reassembles characters from units: kept characters, and UTF-8 sequences of escaped bytes. */
  function DecodeUnits(us: seq<Unit>): Option<string> {
    if us == [] then Some([])
    else match us[0]
      case Plain(c) => Prepend(c, DecodeUnits(us[1..]))
      case Escaped(b0) =>
        var n := SequenceLength(b0);
        if n == 0 || |us| < n then None
        else if n >= 2 && !IsContinuation(us[1]) then None
        else if n >= 3 && !IsContinuation(us[2]) then None
        else if n >= 4 && !IsContinuation(us[3]) then None
        else
          var cp :=
            if n == 1 then b0
            else if n == 2 then (b0 - 0xC0) * 64 + (us[1].b - 0x80)
            else if n == 3 then ((b0 - 0xE0) * 64 + (us[1].b - 0x80)) * 64 + (us[2].b - 0x80)
            else (((b0 - 0xF0) * 64 + (us[1].b - 0x80)) * 64 + (us[2].b - 0x80)) * 64 + (us[3].b - 0x80);
          if (0 <= cp < 0xD800) || (0xE000 <= cp < 0x11_0000) then Prepend(cp as char, DecodeUnits(us[n..]))
          else None
  }

  function LastIndexOf(s: string, x: char): (r: Option<nat>)
    ensures r.Some? ==> r.value < |s| && s[r.value] == x
  {
    if s == [] then None
    else if s[|s| - 1] == x then Some(|s| - 1)
    else LastIndexOf(s[..|s| - 1], x)
  }

  /** Recovers the original text from the part of a key after the last '_'. */
  function DecodeText(enc: string): Option<string> {
    match DecodeBase64Unpadded(enc)
    case None => None
    case Some(bytes) =>
      match Unescape(Latin1Text(bytes))
      case None => None
      case Some(units) => DecodeUnits(units)
  }

  /** Recovers (lang, original) from a cache key. */
  function ParseKey(key: string): Option<(string, string)> {
    if |key| < |Prefix| || key[..|Prefix|] != Prefix then None
    else
      var rest := key[|Prefix|..];
      match LastIndexOf(rest, '_')
      case None => None
      case Some(i) =>
        match DecodeText(rest[i + 1..])
        case None => None
        case Some(original) => Some((rest[..i], original))
  }

  // ---------------------------------------------------------------- round trips

  /** The escaped UTF-8 bytes of a character decode back to it, whatever follows them. */
  lemma Utf8RoundTrip(c: char, rest: seq<Unit>)
    requires !Unreserved(c)
    ensures DecodeUnits(EscapeAll(Utf8(c)) + rest) == Prepend(c, DecodeUnits(rest))
  {
    var n := c as int;
    if n < 0x80 {
      Utf8RoundTrip1(c, rest);
    } else if n < 0x800 {
      Utf8RoundTrip2(c, rest);
    } else if n < 0x1_0000 {
      Utf8RoundTrip3(c, rest);
    } else {
      Utf8RoundTrip4(c, rest);
    }
  }

  /** A one-byte sequence. */
  lemma Utf8RoundTrip1(c: char, rest: seq<Unit>)
    requires c as int < 0x80
    ensures DecodeUnits(EscapeAll(Utf8(c)) + rest) == Prepend(c, DecodeUnits(rest))
  {
    var bs := Utf8(c);
    var us := EscapeAll(bs) + rest;
    assert us[0] == Escaped(bs[0]);
    assert SequenceLength(bs[0]) == |bs|;
    assert us[|bs|..] == rest;
  }

  /** A two-byte sequence. */
  lemma Utf8RoundTrip2(c: char, rest: seq<Unit>)
    requires 0x80 <= c as int < 0x800
    ensures DecodeUnits(EscapeAll(Utf8(c)) + rest) == Prepend(c, DecodeUnits(rest))
  {
    var bs := Utf8(c);
    var us := EscapeAll(bs) + rest;
    assert us[0] == Escaped(bs[0]);
    assert SequenceLength(bs[0]) == |bs|;
    assert us[|bs|..] == rest;
    assert us[1] == Escaped(bs[1]);
  }

  /** A three-byte sequence. */
  lemma Utf8RoundTrip3(c: char, rest: seq<Unit>)
    requires 0x800 <= c as int < 0x1_0000
    ensures DecodeUnits(EscapeAll(Utf8(c)) + rest) == Prepend(c, DecodeUnits(rest))
  {
    var bs := Utf8(c);
    var us := EscapeAll(bs) + rest;
    assert us[0] == Escaped(bs[0]);
    assert SequenceLength(bs[0]) == |bs|;
    assert us[|bs|..] == rest;
    assert us[1] == Escaped(bs[1]);
    assert us[2] == Escaped(bs[2]);
  }

  /** A four-byte sequence. */
  lemma Utf8RoundTrip4(c: char, rest: seq<Unit>)
    requires 0x1_0000 <= c as int
    ensures DecodeUnits(EscapeAll(Utf8(c)) + rest) == Prepend(c, DecodeUnits(rest))
  {
    var bs := Utf8(c);
    var us := EscapeAll(bs) + rest;
    assert us[0] == Escaped(bs[0]);
    assert SequenceLength(bs[0]) == |bs|;
    assert us[|bs|..] == rest;
    assert us[1] == Escaped(bs[1]);
    assert us[2] == Escaped(bs[2]);
    assert us[3] == Escaped(bs[3]);
  }

  lemma {:induction false} CharRoundTrip(c: char, rest: seq<Unit>)
    ensures DecodeUnits(CharUnits(c) + rest) == Prepend(c, DecodeUnits(rest))
  {
    if Unreserved(c) {
      assert (CharUnits(c) + rest)[1..] == rest;
    } else {
      Utf8RoundTrip(c, rest);
    }
  }

  lemma {:induction false} UnitsRoundTrip(s: string)
    ensures DecodeUnits(Units(s)) == Some(s)
  {
    if s != [] {
      UnitsRoundTrip(s[1..]);
      CharRoundTrip(s[0], Units(s[1..]));
      assert [s[0]] + s[1..] == s;
    }
  }

  lemma {:induction false} UnescapeRender(us: seq<Unit>)
    requires PlainUnreserved(us)
    ensures Unescape(Render(us)) == Some(us)
  {
    if us != [] {
      var t := UnitText(us[0]);
      var rest := Render(us[1..]);
      assert Render(us) == t + rest;
      UnescapeRender(us[1..]);
      if us[0].Plain? {
        assert Unreserved(us[0].c);
        assert (t + rest)[0] == us[0].c;
        assert (t + rest)[1..] == rest;
      } else {
        var b := us[0].b;
        assert (t + rest)[3..] == rest;
        assert HexValue(HexDigit(b / 16)) == Some(b / 16);
        assert HexValue(HexDigit(b % 16)) == Some(b % 16);
      }
      assert [us[0]] + us[1..] == us;
    }
  }

  lemma {:induction false} Latin1RoundTrip(s: string)
    requires Latin1(s)
    ensures Latin1Text(Latin1Bytes(s)) == s
  {
    var t := Latin1Text(Latin1Bytes(s));
    assert |t| == |s|;
    forall k | 0 <= k < |s| ensures t[k] == s[k] {
      assert t[k] as int == s[k] as int;
    }
  }

  lemma {:induction false} StripEqualsAppend(a: string, b: string)
    ensures StripEquals(a + b) == StripEquals(a) + StripEquals(b)
  {
    if a == [] {
      assert a + b == b;
    } else {
      assert (a + b)[0] == a[0];
      assert (a + b)[1..] == a[1..] + b;
      StripEqualsAppend(a[1..], b);
    }
  }

  lemma {:induction false} StripEqualsNone(s: string)
    requires forall k :: 0 <= k < |s| ==> s[k] != '='
    ensures StripEquals(s) == s
  {
    if s != [] {
      StripEqualsNone(s[1..]);
    }
  }

  lemma SextetRoundTrip(i: int)
    requires 0 <= i < 64
    ensures SextetValue(Sextet(i)) == Some(i)
  {
  }

  lemma OneByteTail(b0: Byte)
    ensures DecodeBase64Unpadded([Sextet(b0 / 4), Sextet((b0 % 4) * 16)]) == Some([b0])
  {
    SextetRoundTrip(b0 / 4);
    SextetRoundTrip((b0 % 4) * 16);
    assert ((b0 % 4) * 16) / 16 == b0 % 4;
  }

  lemma TwoByteTail(b0: Byte, b1: Byte)
    ensures DecodeBase64Unpadded([Sextet(b0 / 4), Sextet((b0 % 4) * 16 + b1 / 16), Sextet((b1 % 16) * 4)])
      == Some([b0, b1])
  {
    var v1 := (b0 % 4) * 16 + b1 / 16;
    SextetRoundTrip(b0 / 4);
    SextetRoundTrip(v1);
    SextetRoundTrip((b1 % 16) * 4);
    assert v1 / 16 == b0 % 4 && v1 % 16 == b1 / 16;
    assert ((b1 % 16) * 4) / 4 == b1 % 16;
  }

  lemma {:induction false} GroupThenTail(b0: Byte, b1: Byte, b2: Byte, tail: string)
    ensures DecodeBase64Unpadded([Sextet(b0 / 4), Sextet((b0 % 4) * 16 + b1 / 16),
                                  Sextet((b1 % 16) * 4 + b2 / 64), Sextet(b2 % 64)] + tail)
      == match DecodeBase64Unpadded(tail) case None => None case Some(r) => Some([b0, b1, b2] + r)
  {
    var v1 := (b0 % 4) * 16 + b1 / 16;
    var v2 := (b1 % 16) * 4 + b2 / 64;
    var s := [Sextet(b0 / 4), Sextet(v1), Sextet(v2), Sextet(b2 % 64)] + tail;
    assert s[4..] == tail;
    SextetRoundTrip(b0 / 4);
    SextetRoundTrip(v1);
    SextetRoundTrip(v2);
    SextetRoundTrip(b2 % 64);
    assert v1 / 16 == b0 % 4 && v1 % 16 == b1 / 16;
    assert v2 / 4 == b1 % 16 && v2 % 4 == b2 / 64;
  }

  lemma OneByteRoundTrip(b0: Byte)
    ensures DecodeBase64Unpadded(StripEquals(Base64([b0]))) == Some([b0])
  {
    var body: string := [Sextet(b0 / 4), Sextet((b0 % 4) * 16)];
    assert Base64([b0]) == body + "==";
    StripEqualsAppend(body, "==");
    StripEqualsNone(body);
    assert StripEquals("==") == [];
    OneByteTail(b0);
  }

  lemma TwoByteRoundTrip(b0: Byte, b1: Byte)
    ensures DecodeBase64Unpadded(StripEquals(Base64([b0, b1]))) == Some([b0, b1])
  {
    var body: string := [Sextet(b0 / 4), Sextet((b0 % 4) * 16 + b1 / 16), Sextet((b1 % 16) * 4)];
    assert Base64([b0, b1]) == body + "=";
    StripEqualsAppend(body, "=");
    StripEqualsNone(body);
    assert StripEquals("=") == [];
    TwoByteTail(b0, b1);
  }

  lemma {:induction false} GroupStep(bs: seq<Byte>)
    requires |bs| > 2
    requires DecodeBase64Unpadded(StripEquals(Base64(bs[3..]))) == Some(bs[3..])
    ensures DecodeBase64Unpadded(StripEquals(Base64(bs))) == Some(bs)
  {
    var g: string := [Sextet(bs[0] / 4), Sextet((bs[0] % 4) * 16 + bs[1] / 16),
                      Sextet((bs[1] % 16) * 4 + bs[2] / 64), Sextet(bs[2] % 64)];
    assert Base64(bs) == g + Base64(bs[3..]);
    StripEqualsAppend(g, Base64(bs[3..]));
    StripEqualsNone(g);
    var tail := StripEquals(Base64(bs[3..]));
    assert StripEquals(Base64(bs)) == g + tail;
    GroupThenTail(bs[0], bs[1], bs[2], tail);
    assert [bs[0], bs[1], bs[2]] + bs[3..] == bs;
  }

  /** Removing the padding of btoa's output loses nothing: the unpadded text still decodes to the bytes. */
  lemma {:induction false} Base64RoundTrip(bs: seq<Byte>)
    ensures DecodeBase64Unpadded(StripEquals(Base64(bs))) == Some(bs)
  {
    if |bs| == 1 {
      OneByteRoundTrip(bs[0]);
      assert bs == [bs[0]];
    } else if |bs| == 2 {
      TwoByteRoundTrip(bs[0], bs[1]);
      assert bs == [bs[0], bs[1]];
    } else if |bs| > 2 {
      Base64RoundTrip(bs[3..]);
      GroupStep(bs);
    }
  }

  lemma {:induction false} Base64NoUnderscore(bs: seq<Byte>)
    ensures forall k :: 0 <= k < |Base64(bs)| ==> Base64(bs)[k] != '_'
  {
    if |bs| > 2 {
      Base64NoUnderscore(bs[3..]);
    }
  }

  lemma {:induction false} StripEqualsKeeps(s: string, x: char)
    requires forall k :: 0 <= k < |s| ==> s[k] != x
    ensures forall k :: 0 <= k < |StripEquals(s)| ==> StripEquals(s)[k] != x
  {
    if s != [] {
      StripEqualsKeeps(s[1..], x);
    }
  }

  lemma {:induction false} LastIndexAfterFree(a: string, x: char, b: string)
    requires forall k :: 0 <= k < |b| ==> b[k] != x
    ensures LastIndexOf(a + [x] + b, x) == Some(|a|)
  {
    if b != [] {
      var s := a + [x] + b;
      assert s[..|s| - 1] == a + [x] + b[..|b| - 1];
      LastIndexAfterFree(a, x, b[..|b| - 1]);
    }
  }

  /** The encoded part of a key decodes back to the original text and never contains '_'. */
  lemma EncodedTextRoundTrip(original: string)
    ensures var enc := StripEquals(Btoa(EncodeUriComponent(original)));
      DecodeText(enc) == Some(original) && forall k :: 0 <= k < |enc| ==> enc[k] != '_'
  {
    var uri := EncodeUriComponent(original);
    StripEqualsKeeps(Btoa(uri), '_');
    Latin1RoundTrip(uri);
  }

  /** A key cut after its prefix: the prefix, then the language, '_' and the encoded text. */
  lemma KeyParts(p: string, lang: string, enc: string)
    ensures var key := p + lang + "_" + enc;
      |p| <= |key| && key[..|p|] == p && key[|p|..] == lang + ['_'] + enc
  {
    var key := p + lang + "_" + enc;
    assert key == p + (lang + ['_'] + enc);
  }

  /** The two sides of the '_' in lang + ['_'] + enc. */
  lemma RestParts(lang: string, enc: string)
    ensures var rest := lang + ['_'] + enc;
      rest[..|lang|] == lang && rest[|lang| + 1..] == enc
  {
  }

  /** A key whose encoded part decodes and holds no '_' reads back as its language and text. */
  lemma ParseKeyOf(lang: string, enc: string, original: string)
    requires DecodeText(enc) == Some(original) && forall k :: 0 <= k < |enc| ==> enc[k] != '_'
    ensures ParseKey(Prefix + lang + "_" + enc) == Some((lang, original))
  {
    KeyParts(Prefix, lang, enc);
    LastIndexAfterFree(lang, '_', enc);
    RestParts(lang, enc);
  }

  /** Distinct (language, original text) pairs never share a cache key. */
  lemma KeyInjective(lang1: string, original1: string, lang2: string, original2: string)
    requires Key(lang1, original1) == Key(lang2, original2)
    ensures lang1 == lang2 && original1 == original2
  {
  }
}
