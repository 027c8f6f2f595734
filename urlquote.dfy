/**
 * `urllib.parse.quote(s, safe="")`: the text is encoded as UTF-8 and every
 * byte outside the unreserved set of section 2.3 of RFC 3986
 * (`A-Z a-z 0-9 - . _ ~`) becomes a percent-encoded octet as in section 2.1,
 * written with upper-case hexadecimal digits.
 */
module UrlQuote {
  import opened Wrappers

  type Byte = b: int | 0 <= b < 256

  /** The UTF-8 encoding of one Unicode scalar value. */
  function Utf8(c: char): (bs: seq<Byte>)
    ensures 1 <= |bs| <= 4
  {
    var n := c as int;
    if n < 0x80 then [n]
    else if n < 0x800 then [0xC0 + n / 64, 0x80 + n % 64]
    else if n < 0x1_0000 then [0xE0 + n / 4096, 0x80 + (n / 64) % 64, 0x80 + n % 64]
    else
      assert n / 262144 <= 4;
      [0xF0 + n / 262144, 0x80 + (n / 4096) % 64, 0x80 + (n / 64) % 64, 0x80 + n % 64]
  }

  function Utf8Encode(s: string): seq<Byte> {
    if s == [] then [] else Utf8(s[0]) + Utf8Encode(s[1..])
  }

  /** The bytes `quote` never escapes: the unreserved characters of RFC 3986. */
  predicate IsUnreserved(b: Byte) {
    || ('A' as int <= b <= 'Z' as int)
    || ('a' as int <= b <= 'z' as int)
    || ('0' as int <= b <= '9' as int)
    || b == '-' as int || b == '.' as int || b == '_' as int || b == '~' as int
  }

  predicate IsUpperHexDigit(c: char) {
    ('0' <= c <= '9') || ('A' <= c <= 'F')
  }

  function HexDigit(d: nat): (c: char)
    requires d < 16
    ensures IsUpperHexDigit(c)
  {
    if d < 10 then ('0' as int + d) as char else ('A' as int + d - 10) as char
  }

  function HexValue(c: char): (d: nat)
    requires IsUpperHexDigit(c)
    ensures d < 16
  {
    if c <= '9' then c as int - '0' as int else c as int - 'A' as int + 10
  }

  /** One byte as `quote` writes it: itself when unreserved, `%XX` otherwise. */
  function QuoteByte(b: Byte): (r: string)
    ensures |r| == 1 || |r| == 3
  {
    if IsUnreserved(b) then [b as char] else ['%', HexDigit(b / 16), HexDigit(b % 16)]
  }

  function QuoteBytes(bs: seq<Byte>): string {
    if bs == [] then [] else QuoteByte(bs[0]) + QuoteBytes(bs[1..])
  }

  /** `quote(s, safe="")`. */
  function Quote(s: string): string {
    QuoteBytes(Utf8Encode(s))
  }

  /** A character that may stand in `quote`'s output: an unreserved one or '%'. */
  predicate IsQuotedChar(c: char) {
    (c as int < 256 && IsUnreserved(c as int)) || c == '%'
  }

  /** Percent-decoding to bytes, as `urllib.parse.unquote_to_bytes` reads `quote`'s output. */
  function UnquoteToBytes(t: string): Option<seq<Byte>>
  {
    if t == [] then Some([])
    else if t[0] == '%' then
      if |t| >= 3 && IsUpperHexDigit(t[1]) && IsUpperHexDigit(t[2]) then
        match UnquoteToBytes(t[3..])
        case Some(rest) => Some([HexValue(t[1]) * 16 + HexValue(t[2])] + rest)
        case None => None
      else None
    else if t[0] as int < 256 then
      match UnquoteToBytes(t[1..])
      case Some(rest) => Some([t[0] as int] + rest)
      case None => None
    else None
  }

  lemma {:induction false} UnquoteQuotedBytes(bs: seq<Byte>)
    ensures UnquoteToBytes(QuoteBytes(bs)) == Some(bs)
  {
    if bs != [] {
      var b, rest := bs[0], QuoteBytes(bs[1..]);
      UnquoteQuotedBytes(bs[1..]);
      var t := QuoteByte(b) + rest;
      assert QuoteBytes(bs) == t && [b] + bs[1..] == bs;
      if IsUnreserved(b) {
        assert t[0] == b as char && t[1..] == rest;
        assert t[0] != '%' && t[0] as int == b;
      } else {
        assert t[0] == '%' && t[1] == HexDigit(b / 16) && t[2] == HexDigit(b % 16) && t[3..] == rest;
      }
    }
  }

  /** Percent-decoding undoes `quote`: it gives back the UTF-8 bytes of the input. */
  lemma QuoteRoundTrip(s: string)
    ensures UnquoteToBytes(Quote(s)) == Some(Utf8Encode(s))
  {
    UnquoteQuotedBytes(Utf8Encode(s));
  }

  lemma {:induction false} QuoteBytesChars(bs: seq<Byte>)
    ensures forall i :: 0 <= i < |QuoteBytes(bs)| ==> IsQuotedChar(QuoteBytes(bs)[i])
  {
    if bs != [] {
      QuoteBytesChars(bs[1..]);
      var head, rest := QuoteByte(bs[0]), QuoteBytes(bs[1..]);
      forall i | 0 <= i < |head + rest|
        ensures IsQuotedChar((head + rest)[i])
      {
        if i >= |head| {
          assert (head + rest)[i] == rest[i - |head|];
        }
      }
    }
  }

  /** `quote`'s output is made of unreserved characters and '%' only; in particular it holds no '#'. */
  lemma QuoteHasNoHash(s: string)
    ensures forall i :: 0 <= i < |Quote(s)| ==> IsQuotedChar(Quote(s)[i])
    ensures '#' !in Quote(s)
  {
    QuoteBytesChars(Utf8Encode(s));
  }

  /** `quote` gives the empty string exactly for the empty string. */
  lemma QuoteEmpty(s: string)
    ensures Quote(s) == [] <==> s == []
  {
    if s != [] {
      assert |Utf8Encode(s)| >= 1;
    }
  }
}
