/**
 * The application/x-www-form-urlencoded encoding of section 17.13.4.1 of
 * HTML 4.01, as java.net.URLEncoder.encode(s, "utf8") applies it: letters,
 * digits and ". - * _" stay, a space becomes "+", every other character
 * becomes "%XY" for each octet of its UTF-8 form, in upper-case hexadecimal.
 */
module FormUrl {
  import opened Options
  import opened Bytes
  import Utf8
  import Base64

  /** The characters the encoder leaves as they are. */
  predicate IsUnreserved(c: char)
  {
    ('a' <= c <= 'z') || ('A' <= c <= 'Z') || ('0' <= c <= '9') || c == '.' || c == '-' || c == '*' || c == '_'
  }

  /** The upper-case hexadecimal digit for `v`. */
  function HexDigit(v: int): (c: char)
    requires 0 <= v < 16
    ensures ('0' <= c <= '9') || ('A' <= c <= 'F')
  {
    if v < 10 then ('0' as int + v) as char else ('A' as int + (v - 10)) as char
  }

  /** The value of a hexadecimal digit of either case, or None for any other character. */
  function HexValue(c: char): (r: Option<int>)
    ensures r.Some? ==> 0 <= r.value < 16
  {
    if '0' <= c <= '9' then Some(c as int - '0' as int)
    else if 'A' <= c <= 'F' then Some(c as int - 'A' as int + 10)
    else if 'a' <= c <= 'f' then Some(c as int - 'a' as int + 10)
    else None
  }

  lemma HexValueOfDigit(v: int)
    requires 0 <= v < 16
    ensures HexValue(HexDigit(v)) == Some(v)
  {
  }

  /** "%XY" for each octet. */
  function PercentEncode(bs: seq<Byte>): (r: string)
    ensures |r| == 3 * |bs|
    decreases |bs|
  {
    if |bs| == 0 then "" else ['%', HexDigit(bs[0] / 16), HexDigit(bs[0] % 16)] + PercentEncode(bs[1..])
  }

  /** The encoding of one character. */
  function EncodeChar(c: char): string
  {
    if IsUnreserved(c) then [c]
    else if c == ' ' then "+"
    else PercentEncode(Utf8.EncodeChar(c))
  }

  /** URLEncoder.encode(s, "utf8"). */
  function Encode(s: string): (r: string)
    ensures |s| <= |r|
    decreases |s|
  {
    if |s| == 0 then "" else EncodeChar(s[0]) + Encode(s[1..])
  }

  /** `Some(prefix + rest)` when `rest` is there. */
  function Prepend(prefix: seq<Byte>, rest: Option<seq<Byte>>): (r: Option<seq<Byte>>)
    ensures r.Some? <==> rest.Some?
    ensures rest.Some? ==> r.value == prefix + rest.value
  {
    match rest
    case None => None
    case Some(bs) => Some(prefix + bs)
  }

  /**
   * The octets an encoded text stands for, as URLDecoder reads it: "+" is a
   * space, "%XY" is the octet XY, any other character is its own UTF-8 octets.
   * None for a "%" not followed by two hexadecimal digits.
   */
  function DecodeOctets(t: string): (r: Option<seq<Byte>>)
    decreases |t|
  {
    if |t| == 0 then Some([])
    else if t[0] == '%' then
      if |t| < 3 || HexValue(t[1]).None? || HexValue(t[2]).None? then None
      else Prepend([HexValue(t[1]).value * 16 + HexValue(t[2]).value], DecodeOctets(t[3..]))
    else if t[0] == '+' then Prepend([32], DecodeOctets(t[1..]))
    else Prepend(Utf8.EncodeChar(t[0]), DecodeOctets(t[1..]))
  }

  /** URLDecoder.decode(t, "utf8"), or None when the text is malformed. */
  function Decode(t: string): Option<string>
  {
    match DecodeOctets(t)
    case None => None
    case Some(bs) => Utf8.Decode(bs)
  }

  /** One "%XY" escape reads back as its octet, whatever follows it. */
  lemma DecodePercentHead(b: Byte, tail: string)
    ensures DecodeOctets(['%', HexDigit(b / 16), HexDigit(b % 16)] + tail) == Prepend([b], DecodeOctets(tail))
  {
    var t := ['%', HexDigit(b / 16), HexDigit(b % 16)] + tail;
    HexValueOfDigit(b / 16);
    HexValueOfDigit(b % 16);
    assert t[0] == '%' && t[1] == HexDigit(b / 16) && t[2] == HexDigit(b % 16) && t[3..] == tail;
  }

  /** Prepending in two steps is prepending the joined prefix. */
  lemma PrependTwice(a: seq<Byte>, b: seq<Byte>, rest: Option<seq<Byte>>)
    ensures Prepend(a, Prepend(b, rest)) == Prepend(a + b, rest)
  {
    if rest.Some? {
      assert a + (b + rest.value) == (a + b) + rest.value;
    }
  }

  /** Percent-escaped octets read back as those octets, whatever follows them. */
  lemma {:induction false} DecodePercentEncoded(bs: seq<Byte>, rest: string)
    ensures DecodeOctets(PercentEncode(bs) + rest) == Prepend(bs, DecodeOctets(rest))
    decreases |bs|
  {
    if |bs| > 0 {
      var tail := PercentEncode(bs[1..]) + rest;
      assert PercentEncode(bs) + rest == ['%', HexDigit(bs[0] / 16), HexDigit(bs[0] % 16)] + tail;
      DecodePercentHead(bs[0], tail);
      DecodePercentEncoded(bs[1..], rest);
      PrependTwice([bs[0]], bs[1..], DecodeOctets(rest));
      assert [bs[0]] + bs[1..] == bs;
    } else {
      assert PercentEncode(bs) + rest == rest;
      var d := DecodeOctets(rest);
      if d.Some? {
        assert bs + d.value == d.value;
      }
    }
  }

  /** One encoded character, read back, is that character's UTF-8 octets. */
  lemma DecodeEncodedChar(c: char, rest: string)
    ensures DecodeOctets(EncodeChar(c) + rest) == Prepend(Utf8.EncodeChar(c), DecodeOctets(rest))
  {
    if IsUnreserved(c) {
      assert ([c] + rest)[1..] == rest;
    } else if c == ' ' {
      assert ("+" + rest)[1..] == rest;
    } else {
      DecodePercentEncoded(Utf8.EncodeChar(c), rest);
    }
  }

  /** The octets behind an encoding are the UTF-8 form of the text encoded. */
  lemma {:induction false} DecodeOctetsOfEncode(s: string)
    ensures DecodeOctets(Encode(s)) == Some(Utf8.Encode(s))
    decreases |s|
  {
    if |s| > 0 {
      assert Encode(s) == EncodeChar(s[0]) + Encode(s[1..]);
      DecodeEncodedChar(s[0], Encode(s[1..]));
      DecodeOctetsOfEncode(s[1..]);
    }
  }

  /** Decoding an encoding gives back the text encoded. */
  lemma DecodeEncode(s: string)
    ensures Decode(Encode(s)) == Some(s)
  {
    DecodeOctetsOfEncode(s);
    Utf8.DecodeEncode(s);
  }

  /** What the encoding does to a character of base 64 text. */
  function EscapeBase64Char(c: char): string
  {
    if c == '+' then "%2B" else if c == '/' then "%2F" else if c == '=' then "%3D" else [c]
  }

  /** Base 64 text with "+", "/" and "=" escaped and every other character kept. */
  function EscapeBase64(t: string): string
    decreases |t|
  {
    if |t| == 0 then "" else EscapeBase64Char(t[0]) + EscapeBase64(t[1..])
  }

  /** "+", "/" and "=" are escaped by their one UTF-8 octet. */
  lemma EscapeBase64Punctuation(c: char)
    requires c == '+' || c == '/' || c == '='
    ensures EncodeChar(c) == EscapeBase64Char(c)
  {
    var b := c as int;
    assert Utf8.EncodeChar(c) == [b];
    assert PercentEncode([b]) == ['%', HexDigit(b / 16), HexDigit(b % 16)];
  }

  /** A character of base 64 text is encoded as EscapeBase64Char says. */
  lemma EncodeBase64Char(c: char)
    requires Base64.IsEncodedChar(c)
    ensures EncodeChar(c) == EscapeBase64Char(c)
  {
    if c == '+' || c == '/' || c == '=' {
      EscapeBase64Punctuation(c);
    }
  }

  /**
   * On base 64 text the encoder escapes only "+", "/" and "=", the three
   * characters of that alphabet that are neither letters nor digits.
   */
  lemma {:induction false} EncodeBase64Text(t: string)
    requires forall i | 0 <= i < |t| :: Base64.IsEncodedChar(t[i])
    ensures Encode(t) == EscapeBase64(t)
    decreases |t|
  {
    if |t| > 0 {
      EncodeBase64Char(t[0]);
      EncodeBase64Text(t[1..]);
    }
  }
}
