/**
 * Python's `urllib.parse.quote_plus(s)` with its defaults (`safe=''`, UTF-8, strict errors):
 * letters, digits and `_.-~` are kept, a space becomes `+`, and every other character is
 * UTF-8 encoded with each byte written as `%XX` in upper-case hexadecimal.
 * `Unquote` decodes that format and is proved to be its inverse.
 */
module UrlQuote {
  import opened Wrappers

  type byte = x: int | 0 <= x < 256

  /** The characters `quote` never escapes. */
  predicate IsAlwaysSafe(c: char) {
    ('A' <= c <= 'Z') || ('a' <= c <= 'z') || ('0' <= c <= '9') || c == '_' || c == '.' || c == '-' || c == '~'
  }

  /** A Unicode scalar value: what a Dafny `char` can hold. */
  predicate IsScalar(cp: int) {
    (0 <= cp < 0xD800) || (0xE000 <= cp < 0x11_0000)
  }

  /** The UTF-8 encoding of one character. */
  function Utf8(c: char): (bs: seq<byte>)
    ensures 1 <= |bs| <= 4
    ensures |bs| == 1 <==> c as int < 0x80
  {
    var cp := c as int;
    var q1, r1 := cp / 64, cp % 64;
    var q2, r2 := q1 / 64, q1 % 64;
    var q3, r3 := q2 / 64, q2 % 64;
    if cp < 0x80 then [cp]
    else if cp < 0x800 then [0xC0 + q1, 0x80 + r1]
    else if cp < 0x1_0000 then [0xE0 + q2, 0x80 + r2, 0x80 + r1]
    else [0xF0 + q3, 0x80 + r3, 0x80 + r2, 0x80 + r1]
  }

  /** The UTF-8 encoding of a string. */
  function Utf8String(s: string): seq<byte> {
    if s == [] then [] else Utf8(s[0]) + Utf8String(s[1..])
  }

  /** An upper-case hexadecimal digit. */
  function HexDigit(n: int): (c: char)
    requires 0 <= n < 16
    ensures HexValue(c) == Some(n)
  {
    if n < 10 then '0' + n as char else 'A' + (n - 10) as char
  }

  /** The value of a hexadecimal digit of either case. */
  function HexValue(c: char): (r: Option<int>)
    ensures r.Some? ==> 0 <= r.value < 16
  {
    if '0' <= c <= '9' then Some(c as int - '0' as int)
    else if 'A' <= c <= 'F' then Some(c as int - 'A' as int + 10)
    else if 'a' <= c <= 'f' then Some(c as int - 'a' as int + 10)
    else None
  }

  /** `%XX` for one byte. */
  function Escape(b: byte): string {
    ['%', HexDigit(b / 16), HexDigit(b % 16)]
  }

  /** The escapes of a byte sequence, one after the other. */
  function EscapeAll(bs: seq<byte>): (t: string)
    ensures |t| == 3 * |bs|
  {
    if bs == [] then [] else Escape(bs[0]) + EscapeAll(bs[1..])
  }

  /** How `quote_plus` writes one character. */
  function QuoteChar(c: char): string {
    if IsAlwaysSafe(c) then [c]
    else if c == ' ' then "+"
    else EscapeAll(Utf8(c))
  }

  /** `quote_plus(s)`: each character becomes one to twelve characters (four escaped bytes). */
  function QuotePlus(s: string): (q: string)
    ensures |s| <= |q| <= 12 * |s|
  {
    if s == [] then [] else QuoteChar(s[0]) + QuotePlus(s[1..])
  }

  /** The characters that can appear in the output of `quote_plus`. */
  predicate IsQuotedChar(c: char) {
    IsAlwaysSafe(c) || c == '+' || c == '%'
  }

  lemma {:induction false} EscapeAllIsQuoted(bs: seq<byte>)
    ensures forall k :: 0 <= k < |EscapeAll(bs)| ==> IsQuotedChar(EscapeAll(bs)[k])
  {
    if bs != [] {
      EscapeAllIsQuoted(bs[1..]);
    }
  }

  /** The output of `quote_plus` uses only letters, digits, `_.-~`, `+` and `%`: it needs no further escaping in a URL. */
  lemma {:induction false} QuotePlusIsUrlSafe(s: string)
    ensures forall k :: 0 <= k < |QuotePlus(s)| ==> IsQuotedChar(QuotePlus(s)[k])
  {
    if s != [] {
      QuotePlusIsUrlSafe(s[1..]);
      if !IsAlwaysSafe(s[0]) && s[0] != ' ' {
        EscapeAllIsQuoted(Utf8(s[0]));
      }
    }
  }

  /** A string made only of always-safe characters is left as it is. */
  lemma {:induction false} QuotePlusKeepsSafeStrings(s: string)
    requires forall k :: 0 <= k < |s| ==> IsAlwaysSafe(s[k])
    ensures QuotePlus(s) == s
  {
    if s != [] {
      QuotePlusKeepsSafeStrings(s[1..]);
      assert s == [s[0]] + s[1..];
    }
  }

  // ---------------------------------------------------------------- decoding

  /** Undoes the `+` and `%XX` layer: the bytes a server reads from the query string; `None` if malformed. */
  function Unescape(t: string): (r: Option<seq<byte>>)
    decreases |t|
  {
    if t == [] then Some([])
    else if t[0] == '+' then PrefixByte(0x20, Unescape(t[1..]))
    else if IsAlwaysSafe(t[0]) then PrefixByte(t[0] as int, Unescape(t[1..]))
    else if t[0] == '%' && |t| >= 3 && HexValue(t[1]).Some? && HexValue(t[2]).Some? then
      PrefixByte(HexValue(t[1]).value * 16 + HexValue(t[2]).value, Unescape(t[3..]))
    else None
  }

  function PrefixByte(b: byte, r: Option<seq<byte>>): Option<seq<byte>> {
    if r.Some? then Some([b] + r.value) else None
  }

  /** Decodes UTF-8 (lead byte and continuation bytes checked); `None` if malformed. */
  function Utf8Decode(bs: seq<byte>): (r: Option<string>)
    decreases |bs|
  {
    if bs == [] then Some([])
    else
      var n := SequenceLength(bs[0]);
      if n == 0 || |bs| < n || !(forall k :: 1 <= k < n ==> 0x80 <= bs[k] < 0xC0) then None
      else
        var cp := CodePoint(bs[..n]);
        if !IsScalar(cp) then None
        else
          var rest := Utf8Decode(bs[n..]);
          if rest.Some? then Some([cp as char] + rest.value) else None
  }

  /** The length of the UTF-8 sequence a lead byte starts; 0 if it cannot start one. */
  function SequenceLength(b: byte): nat {
    if b < 0x80 then 1
    else if 0xC0 <= b < 0xE0 then 2
    else if 0xE0 <= b < 0xF0 then 3
    else if 0xF0 <= b < 0xF8 then 4
    else 0
  }

  /** The code point of a well-formed UTF-8 sequence of 1 to 4 bytes. */
  function CodePoint(bs: seq<byte>): int
    requires 1 <= |bs| <= 4
  {
    var b0: int := bs[0];
    if |bs| == 1 then b0
    else if |bs| == 2 then (b0 - 0xC0) * 64 + Low6(bs[1])
    else if |bs| == 3 then ((b0 - 0xE0) * 64 + Low6(bs[1])) * 64 + Low6(bs[2])
    else (((b0 - 0xF0) * 64 + Low6(bs[1])) * 64 + Low6(bs[2])) * 64 + Low6(bs[3])
  }

  /** The payload of a continuation byte. */
  function Low6(b: byte): int {
    b as int - 0x80
  }

  /** Decodes a `quote_plus`-style string back to text. */
  function Unquote(t: string): Option<string> {
    var bs := Unescape(t);
    if bs.Some? then Utf8Decode(bs.value) else None
  }

  lemma {:induction false} UnescapeEscapeAll(bs: seq<byte>, rest: string)
    requires Unescape(rest).Some?
    ensures Unescape(EscapeAll(bs) + rest) == Some(bs + Unescape(rest).value)
  {
    if bs != [] {
      UnescapeEscapeAll(bs[1..], rest);
      var b := bs[0];
      assert HexValue(HexDigit(b / 16)).value * 16 + HexValue(HexDigit(b % 16)).value == b;
      var t := EscapeAll(bs) + rest;
      assert t == Escape(bs[0]) + (EscapeAll(bs[1..]) + rest);
      assert t[0] == '%' && t[1] == HexDigit(b / 16) && t[2] == HexDigit(b % 16);
      assert t[3..] == EscapeAll(bs[1..]) + rest;
      assert Unescape(t) == PrefixByte(b, Unescape(t[3..]));
      assert bs == [b] + bs[1..];
      var u := Unescape(rest).value;
      assert [b] + (bs[1..] + u) == bs + u;
    } else {
      assert EscapeAll(bs) + rest == rest;
      assert bs + Unescape(rest).value == Unescape(rest).value;
    }
  }

  lemma {:induction false} UnescapeQuotePlus(s: string)
    ensures Unescape(QuotePlus(s)) == Some(Utf8String(s))
  {
    if s != [] {
      UnescapeQuotePlus(s[1..]);
      var c := s[0];
      var t := QuotePlus(s);
      assert t == QuoteChar(c) + QuotePlus(s[1..]);
      if IsAlwaysSafe(c) || c == ' ' {
        assert t[1..] == QuotePlus(s[1..]);
      } else {
        UnescapeEscapeAll(Utf8(c), QuotePlus(s[1..]));
      }
    }
  }

  /** Decoding the encoding of one character gives that character back. */
  lemma Utf8DecodeChar(c: char, rest: seq<byte>)
    requires Utf8Decode(rest).Some?
    ensures Utf8Decode(Utf8(c) + rest) == Some([c] + Utf8Decode(rest).value)
  {
    var bs := Utf8(c) + rest;
    var n := |Utf8(c)|;
    assert bs[..n] == Utf8(c);
    assert bs[n..] == rest;
    assert SequenceLength(bs[0]) == n;
    assert CodePoint(bs[..n]) == c as int;
  }

  lemma {:induction false} Utf8DecodeString(s: string)
    ensures Utf8Decode(Utf8String(s)) == Some(s)
  {
    if s != [] {
      Utf8DecodeString(s[1..]);
      Utf8DecodeChar(s[0], Utf8String(s[1..]));
      assert s == [s[0]] + s[1..];
    }
  }

  /** `quote_plus` loses nothing: decoding its output gives back the query. */
  lemma QuotePlusRoundTrip(s: string)
    ensures Unquote(QuotePlus(s)) == Some(s)
  {
    UnescapeQuotePlus(s);
    Utf8DecodeString(s);
  }
}
