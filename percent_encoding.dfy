/**
 * The search-term codec of `Dejure/PercentDecoder.cs`.
 *
 * `Encode` writes a string as ISO/IEC 8859-1 (Latin-1) bytes, keeping the
 * unreserved characters of section 2.3 of RFC 3986 and writing every other
 * byte as a percent escape with upper-case hex digits (section 2.1 of
 * RFC 3986). `Decode` first tries the platform's UTF-8 unescaping and falls
 * back to a byte-wise Latin-1 unescaping when that fails or leaves a `%`.
 * `NoSpans` strips literal `<span>` and `</span>` markup.
 */
module PercentEncoding {
  import opened Wrappers
  import opened Strings

  type byte = x: int | 0 <= x < 256

  /** Every character is a Latin-1 code point, so `GetBytes` maps it to itself. */
  predicate IsLatin1(s: string) {
    forall i :: 0 <= i < |s| ==> s[i] as int < 256
  }

  /** ISO-8859-1 `GetBytes` on a string of Latin-1 code points. */
  function Latin1Bytes(s: string): (bs: seq<byte>)
    requires IsLatin1(s)
    ensures |bs| == |s|
    ensures forall i :: 0 <= i < |s| ==> bs[i] == s[i] as int
  {
    seq(|s|, i requires 0 <= i < |s| => CharByte(s[i]))
  }

  /** The Latin-1 byte of a Latin-1 code point. */
  function CharByte(c: char): byte
    requires c as int < 256
  {
    c as int
  }

  /** ISO-8859-1 `GetString`: every byte becomes the character with that code. */
  function Latin1String(bs: seq<byte>): (s: string)
    ensures |s| == |bs| && IsLatin1(s)
    ensures forall i :: 0 <= i < |bs| ==> s[i] as int == bs[i]
  {
    seq(|bs|, i requires 0 <= i < |bs| => bs[i] as char)
  }

  /** `GetString` undoes `GetBytes` on a string of Latin-1 code points, and conversely. */
  lemma Latin1RoundTrip(s: string, bs: seq<byte>)
    requires IsLatin1(s)
    ensures Latin1String(Latin1Bytes(s)) == s
    ensures Latin1Bytes(Latin1String(bs)) == bs
  {
    var t := Latin1String(Latin1Bytes(s));
    assert forall i :: 0 <= i < |s| ==> t[i] == s[i];
  }

  /** An ASCII letter or digit, or one of `- _ . ~`. */
  predicate IsUnreserved(c: char)
    ensures IsUnreserved(c) ==> c as int < 128 && c != '%' && c != '&'
  {
    ('A' <= c <= 'Z') || ('a' <= c <= 'z') || ('0' <= c <= '9') ||
    c == '-' || c == '_' || c == '.' || c == '~'
  }

  /** A character `Encode` may emit. */
  predicate IsEncodedChar(c: char) {
    IsUnreserved(c) || c == '%'
  }

  /** The upper-case hex digit `X2` formatting writes for a value below 16. */
  function HexDigit(d: int): (c: char)
    requires 0 <= d < 16
    ensures IsUnreserved(c) && HexValue(c) == Some(d)
    ensures ('0' <= c <= '9') || ('A' <= c <= 'F')
  {
    if d < 10 then ('0' as int + d) as char else ('A' as int + d - 10) as char
  }

  /** The value of a hex digit in either case, as `NumberStyles.HexNumber` reads it. */
  function HexValue(c: char): Option<int> {
    if '0' <= c <= '9' then Some(c as int - '0' as int)
    else if 'a' <= c <= 'f' then Some(c as int - 'a' as int + 10)
    else if 'A' <= c <= 'F' then Some(c as int - 'A' as int + 10)
    else None
  }

  /** The white space that `NumberStyles.AllowLeadingWhite`/`AllowTrailingWhite` accept. */
  predicate IsNumberWhite(c: char) {
    ('\U{9}' <= c <= '\U{D}') || c == ' '
  }

  /**
   * `byte.TryParse` of the two characters `[hi, lo]` with
   * `NumberStyles.HexNumber`: optional leading white space, one or two hex
   * digits, optional trailing white space.
   */
  function ParseHexPair(hi: char, lo: char): (r: Option<byte>)
    ensures HexValue(hi).Some? && HexValue(lo).Some? ==>
              r == Some(HexValue(hi).value * 16 + HexValue(lo).value)
    ensures r.Some? ==> (HexValue(hi).Some? || HexValue(lo).Some?)
    ensures HexValue(hi).None? && HexValue(lo).None? ==> r.None?
    ensures HexValue(hi).None? && HexValue(lo).Some? ==>
              (r.Some? <==> IsNumberWhite(hi)) && (r.Some? ==> r.value == HexValue(lo).value)
    ensures HexValue(hi).Some? && HexValue(lo).None? ==>
              (r.Some? <==> IsNumberWhite(lo)) && (r.Some? ==> r.value == HexValue(hi).value)
  {
    match (HexValue(hi), HexValue(lo))
    case (Some(h), Some(l)) => Some(h * 16 + l)
    case (None, Some(l)) => if IsNumberWhite(hi) then Some(l) else None
    case (Some(h), None) => if IsNumberWhite(lo) then Some(h) else None
    case (None, None) => None
  }

  /** The text `Encode` appends for one byte. */
  function EncodeByte(b: byte): (r: string)
    ensures IsUnreserved(b as char) ==> r == [b as char]
    ensures !IsUnreserved(b as char) ==>
              |r| == 3 && r[0] == '%' &&
              HexValue(r[1]).Some? && HexValue(r[2]).Some? &&
              ('0' <= r[1] <= '9' || 'A' <= r[1] <= 'F') &&
              ('0' <= r[2] <= '9' || 'A' <= r[2] <= 'F') &&
              HexValue(r[1]).value * 16 + HexValue(r[2]).value == b
  {
    if IsUnreserved(b as char) then [b as char]
    else ['%', HexDigit(b / 16), HexDigit(b % 16)]
  }

  /** Number of bytes that `Encode` writes as an escape. */
  function EscapedCount(bs: seq<byte>): nat {
    if bs == [] then 0
    else (if IsUnreserved(bs[0] as char) then 0 else 1) + EscapedCount(bs[1..])
  }

  /** The percent-encoding of a byte sequence. */
  function EncodeBytes(bs: seq<byte>): (r: string)
    ensures |bs| <= |r| <= 3 * |bs|
    ensures forall c :: c in r ==> IsEncodedChar(c)
  {
    if bs == [] then [] else EncodeByte(bs[0]) + EncodeBytes(bs[1..])
  }

  /** The result of `Encode` on a non-null string of Latin-1 code points. */
  function Encoded(s: string): (r: string)
    requires IsLatin1(s)
    ensures |s| <= |r| <= 3 * |s|
    ensures forall c :: c in r ==> IsEncodedChar(c)
  {
    EncodeBytes(Latin1Bytes(s))
  }

  /** Encoding distributes over concatenation. */
  lemma {:induction false} EncodeBytesAppend(a: seq<byte>, b: seq<byte>)
    ensures EncodeBytes(a + b) == EncodeBytes(a) + EncodeBytes(b)
  {
    if a == [] {
      assert a + b == b;
    } else {
      assert (a + b)[0] == a[0] && (a + b)[1..] == a[1..] + b;
      EncodeBytesAppend(a[1..], b);
    }
  }

  /** Encoding one more byte appends that byte's encoding. */
  lemma EncodeBytesSnoc(bs: seq<byte>, b: byte)
    ensures EncodeBytes(bs + [b]) == EncodeBytes(bs) + EncodeByte(b)
  {
    EncodeBytesAppend(bs, [b]);
    assert [b][1..] == [] && EncodeByte(b) + [] == EncodeByte(b);
  }

  /** The encoding is exactly two characters longer per escaped byte. */
  lemma {:induction false} EncodedLength(bs: seq<byte>)
    ensures |EncodeBytes(bs)| == |bs| + 2 * EscapedCount(bs)
    ensures EscapedCount(bs) == 0 <==> EncodeBytes(bs) == Latin1String(bs)
  {
    if bs != [] {
      EncodedLength(bs[1..]);
      if EscapedCount(bs) == 0 {
        assert Latin1String(bs) == [bs[0] as char] + Latin1String(bs[1..]);
      }
    }
  }

  /**
   * `Encode`. A null or empty input is returned as it is; otherwise every
   * Latin-1 byte is appended either as itself or as `%XX`.
   */
  method Encode(decoded: Option<string>) returns (encoded: Option<string>)
    requires decoded.Some? ==> IsLatin1(decoded.value)
    ensures decoded.None? || decoded == Some("") ==> encoded == decoded
    ensures decoded.Some? ==> encoded == Some(Encoded(decoded.value))
  {
    if decoded.None? || decoded.value == "" {
      return decoded;
    }
    var bytes := Latin1Bytes(decoded.value);
    var result: string := "";
    for i := 0 to |bytes|
      invariant result == EncodeBytes(bytes[..i])
    {
      var b := bytes[i];
      EncodeBytesSnoc(bytes[..i], b);
      assert bytes[..i + 1] == bytes[..i] + [b];
      if IsUnreserved(b as char) {
        result := result + [b as char];
      } else {
        result := result + ['%', HexDigit(b / 16), HexDigit(b % 16)];
      }
    }
    assert bytes[..|bytes|] == bytes;
    return Some(result);
  }

  /** `(byte)c`: the low eight bits of a character's code. */
  function LowByte(c: char): (b: byte)
    ensures c as int < 256 ==> b == c as int
    ensures (c as int - b) % 256 == 0
  {
    c as int % 256
  }

  /**
   * The bytes the fallback loop of `Decode` collects: a `%` with at least two
   * characters after it that parse as hex becomes that byte and consumes the
   * pair; every other character, a `%` included, becomes its low byte.
   */
  function UnescapeBytes(s: string): (bs: seq<byte>)
    ensures |bs| <= |s|
    decreases |s|
  {
    if s == [] then []
    else if s[0] == '%' && 2 < |s| && ParseHexPair(s[1], s[2]).Some? then
      [ParseHexPair(s[1], s[2]).value] + UnescapeBytes(s[3..])
    else [LowByte(s[0])] + UnescapeBytes(s[1..])
  }

  /** One step of the fallback loop, read at index `i`. */
  lemma UnescapeBytesAt(s: string, i: int)
    requires 0 <= i < |s|
    ensures s[i] == '%' && i + 2 < |s| && ParseHexPair(s[i + 1], s[i + 2]).Some? ==>
              UnescapeBytes(s[i..]) == [ParseHexPair(s[i + 1], s[i + 2]).value] + UnescapeBytes(s[i + 3..])
    ensures !(s[i] == '%' && i + 2 < |s| && ParseHexPair(s[i + 1], s[i + 2]).Some?) ==>
              UnescapeBytes(s[i..]) == [LowByte(s[i])] + UnescapeBytes(s[i + 1..])
  {
  }

  /** The string the fallback branch of `Decode` returns. */
  function Latin1Unescaped(s: string): (r: string)
    ensures |r| <= |s| && IsLatin1(r)
  {
    Latin1String(UnescapeBytes(s))
  }

  /** The UTF-8 attempt is kept when `UnescapeDataString` did not throw and left no `%`. */
  predicate Utf8Accepted(attempt: Option<string>) {
    attempt.Some? && '%' !in attempt.value
  }

  /**
   * `Decode`. `unescape` stands for `Uri.UnescapeDataString`; it returns
   * `None` where that call throws.
   */
  method Decode(encoded: Option<string>, unescape: string -> Option<string>) returns (decoded: Option<string>)
    ensures encoded.None? || encoded == Some("") ==> decoded == encoded
    ensures encoded.Some? && encoded.value != "" && Utf8Accepted(unescape(encoded.value)) ==>
              decoded == unescape(encoded.value)
    ensures encoded.Some? && encoded.value != "" && !Utf8Accepted(unescape(encoded.value)) ==>
              decoded == Some(Latin1Unescaped(encoded.value))
  {
    if encoded.None? || encoded.value == "" {
      return encoded;
    }
    var s := encoded.value;
    var utf8 := unescape(s);
    if utf8.Some? && '%' !in utf8.value {
      return utf8;
    }
    var bytes: seq<byte> := [];
    var i := 0;
    while i < |s|
      invariant 0 <= i <= |s|
      invariant bytes + UnescapeBytes(s[i..]) == UnescapeBytes(s)
    {
      UnescapeBytesAt(s, i);
      if s[i] == '%' && i + 2 < |s| {
        var b := ParseHexPair(s[i + 1], s[i + 2]);
        if b.Some? {
          assert bytes + ([b.value] + UnescapeBytes(s[i + 3..])) == (bytes + [b.value]) + UnescapeBytes(s[i + 3..]);
          bytes := bytes + [b.value];
          i := i + 2;
        } else {
          assert bytes + ([LowByte(s[i])] + UnescapeBytes(s[i + 1..])) == (bytes + [LowByte(s[i])]) + UnescapeBytes(s[i + 1..]);
          bytes := bytes + [LowByte(s[i])];
        }
      } else {
        assert bytes + ([LowByte(s[i])] + UnescapeBytes(s[i + 1..])) == (bytes + [LowByte(s[i])]) + UnescapeBytes(s[i + 1..]);
        bytes := bytes + [LowByte(s[i])];
      }
      i := i + 1;
    }
    assert s[i..] == [] && bytes + [] == bytes;
    return Some(Latin1String(bytes));
  }

  /** The fallback unescaping reads back every byte sequence that `Encode` writes. */
  lemma {:induction false} UnescapeEncodeBytes(bs: seq<byte>)
    ensures UnescapeBytes(EncodeBytes(bs)) == bs
  {
    if bs != [] {
      UnescapeEncodeByte(bs[0], EncodeBytes(bs[1..]));
      UnescapeEncodeBytes(bs[1..]);
      assert [bs[0]] + bs[1..] == bs;
    }
  }

  /** The fallback unescaping reads one encoded byte back and goes on after it. */
  lemma UnescapeEncodeByte(b: byte, rest: string)
    ensures UnescapeBytes(EncodeByte(b) + rest) == [b] + UnescapeBytes(rest)
  {
  }

  /**
   * The round trip of the codec: for every string of Latin-1 code points, the
   * fallback decoding of `Encode`'s output is the string itself.
   */
  lemma FallbackInvertsEncode(s: string)
    requires IsLatin1(s)
    ensures Latin1Unescaped(Encoded(s)) == s
  {
    UnescapeEncodeBytes(Latin1Bytes(s));
  }

  /**
   * `Decode(Encode(s)) == s` for a non-empty Latin-1 string whenever the
   * UTF-8 attempt on the encoding is not kept (it throws or leaves a `%`).
   */
  method EncodeThenDecode(s: string, unescape: string -> Option<string>) returns (r: Option<string>)
    requires IsLatin1(s)
    requires s != "" ==> !Utf8Accepted(unescape(Encoded(s)))
    ensures r == Some(s)
  {
    var e := Encode(Some(s));
    if s != "" {
      FallbackInvertsEncode(s);
    }
    r := Decode(e, unescape);
  }

  /** A `%` not followed by a parsable pair, or too close to the end, stays literal. */
  lemma LiteralPercent(s: string)
    requires s != [] && s[0] == '%'
    requires |s| <= 2 || ParseHexPair(s[1], s[2]).None?
    ensures UnescapeBytes(s) == ['%' as int] + UnescapeBytes(s[1..])
  {
  }

  /**
   * `NoSpans`: `Replace("<span>", "")` followed by `Replace("</span>", "")`.
   * It changes its input exactly when one of the two tags occurs in it.
   */
  function NoSpans(input: string): (r: string)
    ensures |r| <= |input|
    ensures r == input <==> !Contains(input, "<span>") && !Contains(input, "</span>")
    ensures '<' !in input ==> r == input
  {
    var first := RemoveAll(input, "<span>");
    RemoveAllChangesIff(input, "<span>");
    RemoveAllChangesIff(first, "</span>");
    NotContainsWithoutFirstChar(input, "<span>");
    NotContainsWithoutFirstChar(input, "</span>");
    RemoveAll(first, "</span>")
  }
}
