/** Percent-decoding in the sense of section 2.1 of RFC 3986, as used on
    the message of an error redirect, and the matching encoder that a
    server uses to build such a message. */
module PercentCodec {

  predicate IsHexDigit(c: char) {
    '0' <= c <= '9' || 'a' <= c <= 'f' || 'A' <= c <= 'F'
  }

  function HexValue(c: char): (v: nat)
    requires IsHexDigit(c)
    ensures v < 16
  {
    if '0' <= c <= '9' then c as int - '0' as int
    else if 'a' <= c <= 'f' then c as int - 'a' as int + 10
    else c as int - 'A' as int + 10
  }

  /** The upper-case hex digit that section 2.1 of RFC 3986 recommends. */
  function HexDigit(v: nat): (c: char)
    requires v < 16
    ensures IsHexDigit(c) && HexValue(c) == v
  {
    if v < 10 then (v + '0' as int) as char else (v - 10 + 'A' as int) as char
  }

  /** The octet a well-formed escape `%XY` stands for. */
  function EscapedOctet(x: char, y: char): (c: char)
    requires IsHexDigit(x) && IsHexDigit(y)
    ensures c as int < 256
  {
    (16 * HexValue(x) + HexValue(y)) as char
  }

  /** Replaces every well-formed escape `%XY` by the octet it denotes and
      keeps every other character as it stands. */
  function Decode(s: string): (r: string)
    ensures |r| <= |s|
    ensures '%' !in s ==> r == s
  {
    if |s| == 0 then ""
    else if |s| >= 3 && s[0] == '%' && IsHexDigit(s[1]) && IsHexDigit(s[2]) then
      [EscapedOctet(s[1], s[2])] + Decode(s[3..])
    else
      [s[0]] + Decode(s[1..])
  }

  /** The unreserved characters of section 2.3 of RFC 3986. */
  predicate IsUnreserved(c: char) {
    || 'A' <= c <= 'Z' || 'a' <= c <= 'z' || '0' <= c <= '9'
    || c == '-' || c == '.' || c == '_' || c == '~'
  }

  /** One character as an encoder writes it: unreserved characters and
      characters beyond one octet as they are, every other octet escaped. */
  function EncodeChar(c: char): (r: string)
    ensures '%' in r ==> |r| == 3
  {
    if IsUnreserved(c) || c as int >= 256 then [c]
    else ['%', HexDigit(c as int / 16), HexDigit(c as int % 16)]
  }

  function Encode(s: string): (r: string)
    ensures |r| >= |s|
  {
    if |s| == 0 then "" else EncodeChar(s[0]) + Encode(s[1..])
  }

  /** Decoding one encoded character consumes exactly that character's encoding. */
  lemma DecodeEncodeChar(c: char, t: string)
    ensures Decode(EncodeChar(c) + t) == [c] + Decode(t)
  {
    var s := EncodeChar(c) + t;
    if IsUnreserved(c) || c as int >= 256 {
      assert s[0] == c && c != '%';
      assert s[1..] == t;
    } else {
      assert s[0] == '%' && s[1] == HexDigit(c as int / 16) && s[2] == HexDigit(c as int % 16);
      assert s[3..] == t;
      assert EscapedOctet(s[1], s[2]) as int == c as int;
    }
  }

  /** Whatever the encoder produces, the decoder turns back into the original text. */
  lemma {:induction false} DecodeEncode(s: string)
    ensures Decode(Encode(s)) == s
  {
    if |s| > 0 {
      DecodeEncodeChar(s[0], Encode(s[1..]));
      DecodeEncode(s[1..]);
      assert [s[0]] + s[1..] == s;
    }
  }
}
