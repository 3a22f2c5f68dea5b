/** JavaScript's `encodeURIComponent`, which the demo and placeholder
    generators use to embed product names in URLs, together with
    `decodeURIComponent` as its inverse. A Dafny `char` is a Unicode scalar
    value, so the lone surrogates on which the JavaScript encoder throws
    cannot occur. */
module Uri {
  import opened Optional
  import Text

  /** The characters `encodeURIComponent` copies unchanged. */
  predicate IsUnreserved(c: char) {
    ('A' <= c <= 'Z') || ('a' <= c <= 'z') || ('0' <= c <= '9')
    || c == '-' || c == '_' || c == '.' || c == '!' || c == '~'
    || c == '*' || c == '\'' || c == '(' || c == ')'
  }

  predicate IsByte(b: int) {
    0 <= b < 256
  }

  /** The UTF-8 encoding of a scalar value. */
  function Utf8(c: char): (bs: seq<int>)
    ensures 1 <= |bs| <= 4
    ensures forall k :: 0 <= k < |bs| ==> IsByte(bs[k])
  {
    var n := c as int;
    if n < 0x80 then [n]
    else if n < 0x800 then [0xC0 + n / 64, 0x80 + n % 64]
    else if n < 0x10000 then [0xE0 + n / 4096, 0x80 + (n / 64) % 64, 0x80 + n % 64]
    else [0xF0 + n / 262144, 0x80 + (n / 4096) % 64, 0x80 + (n / 64) % 64, 0x80 + n % 64]
  }

  const HexDigits: string := "0123456789ABCDEF"

  /** `%XX` with upper-case hex digits. */
  function PctByte(b: int): (r: string)
    requires IsByte(b)
    ensures |r| == 3 && r[0] == '%'
  {
    ['%', HexDigits[b / 16], HexDigits[b % 16]]
  }

  function PctBytes(bs: seq<int>): (r: string)
    requires forall k :: 0 <= k < |bs| ==> IsByte(bs[k])
    ensures |r| == 3 * |bs|
  {
    if |bs| == 0 then "" else PctByte(bs[0]) + PctBytes(bs[1..])
  }

  function EncodeChar(c: char): (r: string)
    ensures 1 <= |r|
  {
    if IsUnreserved(c) then [c] else PctBytes(Utf8(c))
  }

  /** `encodeURIComponent(s)`. */
  function Encode(s: string): (r: string)
    ensures |s| <= |r|
  {
    if |s| == 0 then "" else EncodeChar(s[0]) + Encode(s[1..])
  }

  predicate IsHex(c: char) {
    ('0' <= c <= '9') || ('A' <= c <= 'F') || ('a' <= c <= 'f')
  }

  function HexValue(c: char): (v: int)
    requires IsHex(c)
    ensures 0 <= v < 16
  {
    if '0' <= c <= '9' then c as int - '0' as int
    else if 'A' <= c <= 'F' then c as int - 'A' as int + 10
    else c as int - 'a' as int + 10
  }

  /** The byte of a `%XX` escape at the start of `s`, in either case. */
  function EscapedByte(s: string): (r: Option<int>)
    ensures r.Some? ==> 3 <= |s| && IsByte(r.value)
  {
    if 3 <= |s| && s[0] == '%' && IsHex(s[1]) && IsHex(s[2])
    then Some(16 * HexValue(s[1]) + HexValue(s[2]))
    else None
  }

  /** `n` consecutive escapes at the start of `s`. */
  function EscapedBytes(s: string, n: nat): (r: Option<seq<int>>)
    ensures r.Some? ==> |r.value| == n && 3 * n <= |s|
    ensures r.Some? ==> forall k :: 0 <= k < n ==> IsByte(r.value[k])
  {
    if n == 0 then Some([])
    else match EscapedByte(s)
      case None => None
      case Some(b) =>
        match EscapedBytes(s[3..], n - 1)
        case None => None
        case Some(rest) => Some([b] + rest)
  }

  /** The length of the UTF-8 sequence a lead byte opens, or 0 for a byte
      that cannot start one. */
  function LeadLength(b: int): (n: nat)
    ensures n <= 4
  {
    if 0 <= b < 0x80 then 1
    else if 0xC0 <= b < 0xE0 then 2
    else if 0xE0 <= b < 0xF0 then 3
    else if 0xF0 <= b < 0xF8 then 4
    else 0
  }

  predicate IsContinuation(b: int) {
    0x80 <= b < 0xC0
  }

  predicate IsScalar(n: int) {
    (0 <= n < 0xD800) || (0xE000 <= n < 0x110000)
  }

  /** The scalar value a complete byte sequence spells, rejecting overlong
      forms, surrogates and values beyond U+10FFFF as the JavaScript decoder
      does. */
  function DecodeUtf8(bs: seq<int>): (r: Option<char>)
    requires 1 <= |bs| <= 4 && LeadLength(bs[0]) == |bs|
  {
    var n := |bs|;
    if exists k :: 1 <= k < n && !IsContinuation(bs[k]) then None
    else
      var cp :=
        if n == 1 then bs[0]
        else if n == 2 then (bs[0] - 0xC0) * 64 + (bs[1] - 0x80)
        else if n == 3 then (bs[0] - 0xE0) * 4096 + (bs[1] - 0x80) * 64 + (bs[2] - 0x80)
        else (bs[0] - 0xF0) * 262144 + (bs[1] - 0x80) * 4096 + (bs[2] - 0x80) * 64 + (bs[3] - 0x80);
      var least := if n == 1 then 0 else if n == 2 then 0x80 else if n == 3 then 0x800 else 0x10000;
      if least <= cp && IsScalar(cp) then Some(cp as char) else None
  }

  /** `decodeURIComponent(s)`, with `None` for the inputs on which it throws
      (a malformed escape or an invalid UTF-8 sequence). */
  function Decode(s: string): (r: Option<string>)
    decreases |s|
  {
    if |s| == 0 then Some("")
    else if s[0] != '%' then
      match Decode(s[1..])
      case None => None
      case Some(rest) => Some([s[0]] + rest)
    else
      match EscapedByte(s)
      case None => None
      case Some(b0) =>
        var n := LeadLength(b0);
        if n == 0 then None
        else match EscapedBytes(s, n)
          case None => None
          case Some(bs) =>
            match DecodeUtf8(bs)
            case None => None
            case Some(c) =>
              match Decode(s[3 * n..])
              case None => None
              case Some(rest) => Some([c] + rest)
  }

  /** A character `encodeURIComponent` may output. */
  predicate IsEncodedChar(c: char) {
    IsUnreserved(c) || c == '%' || c in HexDigits
  }

  /** The encoder's output is made of unreserved characters and `%XX`
      escapes with upper-case hex digits only, so it never holds a space, a
      slash, a `?`, a `&` or a `#`. */
  lemma {:induction false} EncodeAlphabet(s: string)
    ensures forall k :: 0 <= k < |Encode(s)| ==> IsEncodedChar(Encode(s)[k])
  {
    if |s| > 0 {
      EncodeAlphabet(s[1..]);
      var e := EncodeChar(s[0]);
      if !IsUnreserved(s[0]) {
        PctBytesAlphabet(Utf8(s[0]));
      }
      assert Encode(s) == e + Encode(s[1..]);
    }
  }

  lemma {:induction false} PctBytesAlphabet(bs: seq<int>)
    requires forall k :: 0 <= k < |bs| ==> IsByte(bs[k])
    ensures forall k :: 0 <= k < |PctBytes(bs)| ==> IsEncodedChar(PctBytes(bs)[k])
  {
    if |bs| > 0 {
      PctBytesAlphabet(bs[1..]);
    }
  }

  /** Strings of unreserved characters are left as they are. */
  lemma {:induction false} EncodeUnreserved(s: string)
    requires forall k :: 0 <= k < |s| ==> IsUnreserved(s[k])
    ensures Encode(s) == s
  {
    if |s| > 0 {
      EncodeUnreserved(s[1..]);
      assert s == [s[0]] + s[1..];
    }
  }

  lemma HexDigitRoundTrip(d: int)
    requires 0 <= d < 16
    ensures IsHex(HexDigits[d]) && HexValue(HexDigits[d]) == d
  {
  }

  lemma EscapedBytePct(b: int, rest: string)
    requires IsByte(b)
    ensures EscapedByte(PctByte(b) + rest) == Some(b)
  {
    HexDigitRoundTrip(b / 16);
    HexDigitRoundTrip(b % 16);
  }

  lemma {:induction false} EscapedBytesPct(bs: seq<int>, rest: string)
    requires forall k :: 0 <= k < |bs| ==> IsByte(bs[k])
    ensures EscapedBytes(PctBytes(bs) + rest, |bs|) == Some(bs)
    ensures (PctBytes(bs) + rest)[3 * |bs|..] == rest
  {
    if |bs| > 0 {
      var b, tail := bs[0], bs[1..];
      var s := PctBytes(bs) + rest;
      var t := PctBytes(tail) + rest;
      assert s == PctByte(b) + t;
      assert EscapedByte(s) == Some(b) by { EscapedBytePct(b, t); }
      assert s[3..] == t;
      assert EscapedBytes(t, |tail|) == Some(tail) && t[3 * |tail|..] == rest by {
        EscapedBytesPct(tail, rest);
      }
      assert EscapedBytes(s, |bs|) == Some([b] + tail);
      assert [b] + tail == bs;
      assert s[3 * |bs|..] == s[3..][3 * |tail|..];
    }
  }

  lemma Utf8TwoBytes(n: int)
    requires 0x80 <= n < 0x800
    ensures (0xC0 + n / 64 - 0xC0) * 64 + (0x80 + n % 64 - 0x80) == n
  {
  }

  lemma Utf8ThreeBytes(n: int)
    requires 0x800 <= n < 0x10000
    ensures (n / 4096) * 4096 + ((n / 64) % 64) * 64 + n % 64 == n
  {
    var q := n / 64;
    assert n == q * 64 + n % 64;
    assert q == (q / 64) * 64 + q % 64;
    assert q / 64 == n / 4096;
  }

  lemma Utf8FourBytes(n: int)
    requires 0x10000 <= n < 0x110000
    ensures (n / 262144) * 262144 + ((n / 4096) % 64) * 4096 + ((n / 64) % 64) * 64 + n % 64 == n
  {
    var q := n / 64;
    var p := q / 64;
    assert n == q * 64 + n % 64;
    assert q == p * 64 + q % 64;
    assert p == n / 4096;
    assert p == (p / 64) * 64 + p % 64;
    assert p / 64 == n / 262144;
  }

  /** Decoding the UTF-8 bytes of a character gives the character back. */
  lemma Utf8RoundTrip(c: char)
    ensures LeadLength(Utf8(c)[0]) == |Utf8(c)|
    ensures DecodeUtf8(Utf8(c)) == Some(c)
  {
    var n := c as int;
    if n < 0x80 {
    } else if n < 0x800 {
      Utf8TwoRoundTrip(c);
    } else if n < 0x10000 {
      Utf8ThreeRoundTrip(c);
    } else {
      Utf8FourRoundTrip(c);
    }
  }

  lemma Utf8TwoRoundTrip(c: char)
    requires 0x80 <= c as int < 0x800
    ensures LeadLength(Utf8(c)[0]) == |Utf8(c)| == 2
    ensures DecodeUtf8(Utf8(c)) == Some(c)
  {
    Utf8TwoBytes(c as int);
  }

  lemma Utf8ThreeRoundTrip(c: char)
    requires 0x800 <= c as int < 0x10000
    ensures LeadLength(Utf8(c)[0]) == |Utf8(c)| == 3
    ensures DecodeUtf8(Utf8(c)) == Some(c)
  {
    var n := c as int;
    var bs := Utf8(c);
    Utf8ThreeBytes(n);
    assert (bs[0] - 0xE0) * 4096 + (bs[1] - 0x80) * 64 + (bs[2] - 0x80) == n;
  }

  lemma Utf8FourRoundTrip(c: char)
    requires 0x10000 <= c as int
    ensures LeadLength(Utf8(c)[0]) == |Utf8(c)| == 4
    ensures DecodeUtf8(Utf8(c)) == Some(c)
  {
    var n := c as int;
    var bs := Utf8(c);
    Utf8FourBytes(n);
    assert (bs[0] - 0xF0) * 262144 + (bs[1] - 0x80) * 4096 + (bs[2] - 0x80) * 64 + (bs[3] - 0x80) == n;
  }

  lemma DecodeEncodeChar(c: char, rest: string)
    ensures Decode(EncodeChar(c) + rest) ==
      match Decode(rest) case None => None case Some(t) => Some([c] + t)
  {
    if IsUnreserved(c) {
      var s := EncodeChar(c) + rest;
      assert s[0] == c && s[1..] == rest;
    } else {
      DecodeEscapedChar(c, rest);
    }
  }

  lemma DecodeEscapedChar(c: char, rest: string)
    requires !IsUnreserved(c)
    ensures Decode(PctBytes(Utf8(c)) + rest) ==
      match Decode(rest) case None => None case Some(t) => Some([c] + t)
  {
    Utf8RoundTrip(c);
    DecodePctBytes(Utf8(c), c, rest);
  }

  /** Decoding the escapes of a valid UTF-8 sequence yields its character. */
  lemma DecodePctBytes(bs: seq<int>, c: char, rest: string)
    requires 1 <= |bs| <= 4 && LeadLength(bs[0]) == |bs|
    requires forall k :: 0 <= k < |bs| ==> IsByte(bs[k])
    requires DecodeUtf8(bs) == Some(c)
    ensures Decode(PctBytes(bs) + rest) ==
      match Decode(rest) case None => None case Some(t) => Some([c] + t)
  {
    var s := PctBytes(bs) + rest;
    EscapedBytesPct(bs, rest);
    DecodeEscapeStep(s, bs, c);
  }

  /** One step of the decoder over a complete escaped character. */
  lemma DecodeEscapeStep(s: string, bs: seq<int>, c: char)
    requires 1 <= |bs| <= 4 && LeadLength(bs[0]) == |bs|
    requires EscapedBytes(s, |bs|) == Some(bs)
    requires DecodeUtf8(bs) == Some(c)
    ensures Decode(s) ==
      match Decode(s[3 * |bs|..]) case None => None case Some(t) => Some([c] + t)
  {
    assert s[0] == '%';
  }

  lemma DecodeCharThen(c: char, rest: string, t: string)
    requires Decode(rest) == Some(t)
    ensures Decode(EncodeChar(c) + rest) == Some([c] + t)
  {
    DecodeEncodeChar(c, rest);
  }

  /** `decodeURIComponent(encodeURIComponent(s)) == s` for every string. */
  lemma {:induction false} DecodeEncode(s: string)
    ensures Decode(Encode(s)) == Some(s)
  {
    if |s| > 0 {
      var c, t := s[0], s[1..];
      assert Decode(Encode(t)) == Some(t) by { DecodeEncode(t); }
      assert Decode(EncodeChar(c) + Encode(t)) == Some([c] + t) by { DecodeCharThen(c, Encode(t), t); }
      assert Encode(s) == EncodeChar(c) + Encode(t);
      assert [c] + t == s;
    }
  }

  /** Encoding never produces a `+`, so a `+` after an encoded piece marks
      where it ends. */
  lemma EncodeHasNoPlus(s: string)
    ensures '+' !in Encode(s)
  {
    EncodeAlphabet(s);
    assert !IsEncodedChar('+');
  }

  /** `prefix + encodeURIComponent(query) + '+' + n`. */
  function NumberedUrl(prefix: string, query: string, n: nat): string {
    prefix + (Encode(query) + "+" + Text.NatToString(n))
  }

  lemma NumberedUrlRoundTrip(prefix: string, query: string, n: nat)
    ensures var url := NumberedUrl(prefix, query, n);
      var text := url[|prefix|..];
      var cut := |Encode(query)|;
      && url[..|prefix|] == prefix
      && cut < |text| && text[cut] == '+' && '+' !in text[..cut]
      && Decode(text[..cut]) == Some(query)
      && Text.AllChars(text[cut + 1..], Text.IsDigit)
      && Text.ParseNat(text[cut + 1..]) == n
  {
    ThreeParts(prefix, Encode(query), Text.NatToString(n));
    EncodeHasNoPlus(query);
    DecodeEncode(query);
    Text.NatToStringRoundTrip(n);
  }

  /** The pieces of `p + (e + "+" + d)`. */
  lemma ThreeParts(p: string, e: string, d: string)
    ensures var url := p + (e + "+" + d);
      var text := url[|p|..];
      && url[..|p|] == p && text == e + "+" + d
      && text[..|e|] == e && text[|e|] == '+' && text[|e| + 1..] == d
  {
    var text := (p + (e + "+" + d))[|p|..];
    assert text == e + "+" + d;
    assert text[..|e|] == e;
    assert text[|e| + 1..] == d;
  }
}
