/**
 * The base 64 encoding of section 4 of RFC 4648: every 3 octets become 4
 * characters of the 64-letter alphabet; a final group of 1 or 2 octets is
 * padded with "=" to 4 characters.
 */
module Base64 {
  import opened Options
  import opened Bytes

  /** A letter of the base 64 alphabet (Table 1 of RFC 4648). */
  predicate IsDigit(c: char)
  {
    ('A' <= c <= 'Z') || ('a' <= c <= 'z') || ('0' <= c <= '9') || c == '+' || c == '/'
  }

  /** A character that can appear in an encoding: a letter of the alphabet or the pad. */
  predicate IsEncodedChar(c: char)
  {
    IsDigit(c) || c == '='
  }

  /** The letter for the 6-bit value `v`. */
  function Digit(v: int): (c: char)
    requires 0 <= v < 64
    ensures IsDigit(c)
  {
    if v < 26 then ('A' as int + v) as char
    else if v < 52 then ('a' as int + (v - 26)) as char
    else if v < 62 then ('0' as int + (v - 52)) as char
    else if v == 62 then '+'
    else '/'
  }

  /** The 6-bit value a letter stands for: the inverse of Digit. */
  function DigitValue(c: char): (v: int)
    requires IsDigit(c)
    ensures 0 <= v < 64 && Digit(v) == c
  {
    if 'A' <= c <= 'Z' then c as int - 'A' as int
    else if 'a' <= c <= 'z' then c as int - 'a' as int + 26
    else if '0' <= c <= '9' then c as int - '0' as int + 52
    else if c == '+' then 62
    else 63
  }

  lemma DigitValueOfDigit(v: int)
    requires 0 <= v < 64
    ensures DigitValue(Digit(v)) == v
  {
  }

  /** The four letters of one full group of three octets. */
  function EncodeGroup(b0: Byte, b1: Byte, b2: Byte): (r: string)
    ensures |r| == 4 && forall i | 0 <= i < 4 :: IsDigit(r[i])
  {
    [Digit(b0 / 4), Digit(b0 % 4 * 16 + b1 / 16), Digit(b1 % 16 * 4 + b2 / 64), Digit(b2 % 64)]
  }

  /** The final group of a single octet: two letters and "==". */
  function EncodeLastOne(b0: Byte): (r: string)
    ensures |r| == 4 && forall i | 0 <= i < 4 :: IsEncodedChar(r[i])
  {
    [Digit(b0 / 4), Digit(b0 % 4 * 16), '=', '=']
  }

  /** The final group of two octets: three letters and "=". */
  function EncodeLastTwo(b0: Byte, b1: Byte): (r: string)
    ensures |r| == 4 && forall i | 0 <= i < 4 :: IsEncodedChar(r[i])
  {
    [Digit(b0 / 4), Digit(b0 % 4 * 16 + b1 / 16), Digit(b1 % 16 * 4), '=']
  }

  /** Two texts in the encoding's characters joined are still in them. */
  lemma ConcatEncodedChars(a: string, b: string)
    requires forall i | 0 <= i < |a| :: IsEncodedChar(a[i])
    requires forall i | 0 <= i < |b| :: IsEncodedChar(b[i])
    ensures forall i | 0 <= i < |a + b| :: IsEncodedChar((a + b)[i])
  {
    forall i | 0 <= i < |a + b|
      ensures IsEncodedChar((a + b)[i])
    {
      if i >= |a| {
        assert (a + b)[i] == b[i - |a|];
      }
    }
  }

  /** Encode: groups of three octets, the last one padded. */
  function Encode(s: seq<Byte>): (r: string)
    ensures |r| == 4 * ((|s| + 2) / 3)
    ensures forall i | 0 <= i < |r| :: IsEncodedChar(r[i])
    decreases |s|
  {
    if |s| == 0 then ""
    else if |s| == 1 then EncodeLastOne(s[0])
    else if |s| == 2 then EncodeLastTwo(s[0], s[1])
    else
      var g, rest := EncodeGroup(s[0], s[1], s[2]), Encode(s[3..]);
      ConcatEncodedChars(g, rest);
      assert (|s| + 2) / 3 == 1 + (|s| - 1) / 3;
      g + rest
  }

  /** The three octets four letters stand for. */
  function DecodeGroup(c0: char, c1: char, c2: char, c3: char): (r: seq<Byte>)
    requires IsDigit(c0) && IsDigit(c1) && IsDigit(c2) && IsDigit(c3)
    ensures |r| == 3
  {
    var v0, v1, v2, v3 := DigitValue(c0), DigitValue(c1), DigitValue(c2), DigitValue(c3);
    [v0 * 4 + v1 / 16, v1 % 16 * 16 + v2 / 4, v2 % 4 * 64 + v3]
  }

  /**
   * Decode: the octets a text in the encoding stands for, or None when the text
   * is not in the encoding (a length that is not a multiple of 4, a letter
   * outside the alphabet, padding before the last group).
   */
  function Decode(t: string): (r: Option<seq<Byte>>)
    decreases |t|
  {
    if |t| == 0 then Some([])
    else if |t| < 4 then None
    else if |t| == 4 && t[2] == '=' && t[3] == '=' then
      if IsDigit(t[0]) && IsDigit(t[1])
      then Some([DigitValue(t[0]) * 4 + DigitValue(t[1]) / 16])
      else None
    else if |t| == 4 && t[3] == '=' then
      if IsDigit(t[0]) && IsDigit(t[1]) && IsDigit(t[2])
      then Some(DecodeGroup(t[0], t[1], t[2], 'A')[..2])
      else None
    else if IsDigit(t[0]) && IsDigit(t[1]) && IsDigit(t[2]) && IsDigit(t[3]) then
      match Decode(t[4..])
      case None => None
      case Some(rest) => Some(DecodeGroup(t[0], t[1], t[2], t[3]) + rest)
    else None
  }

  /** Splitting a 6-bit value `hi * m + lo` back into its two parts. */
  lemma SplitSextet(hi: int, lo: int, m: int)
    requires m == 4 || m == 16 || m == 64
    requires 0 <= lo < m && 0 <= hi && hi * m + lo < 64
    ensures (hi * m + lo) / m == hi && (hi * m + lo) % m == lo
  {
  }

  /** An octet is its quotient and remainder by `m` put back together. */
  lemma JoinOctet(b: Byte, m: int)
    requires m == 4 || m == 16 || m == 64
    ensures b / m * m + b % m == b
  {
  }

  lemma DecodeEncodeGroup(b0: Byte, b1: Byte, b2: Byte)
    ensures var e := EncodeGroup(b0, b1, b2);
      DecodeGroup(e[0], e[1], e[2], e[3]) == [b0, b1, b2]
  {
    var v0, v1, v2, v3 := b0 / 4, b0 % 4 * 16 + b1 / 16, b1 % 16 * 4 + b2 / 64, b2 % 64;
    DigitValueOfDigit(v0);
    DigitValueOfDigit(v1);
    DigitValueOfDigit(v2);
    DigitValueOfDigit(v3);
    SplitSextet(b0 % 4, b1 / 16, 16);
    SplitSextet(b1 % 16, b2 / 64, 4);
    JoinOctet(b0, 4);
    JoinOctet(b1, 16);
    JoinOctet(b2, 64);
    assert v0 * 4 + v1 / 16 == b0;
    assert v1 % 16 * 16 + v2 / 4 == b1;
    assert v2 % 4 * 64 + v3 == b2;
  }

  /** The final group of a single octet, padded with "==". */
  lemma DecodeEncodeOne(s: seq<Byte>)
    requires |s| == 1
    ensures Decode(Encode(s)) == Some(s)
  {
    var e := Encode(s);
    assert e == [Digit(s[0] / 4), Digit(s[0] % 4 * 16), '=', '='];
    DigitValueOfDigit(s[0] / 4);
    DigitValueOfDigit(s[0] % 4 * 16);
    SplitSextet(s[0] % 4, 0, 16);
    JoinOctet(s[0], 4);
    assert DigitValue(e[0]) == s[0] / 4 && DigitValue(e[1]) == s[0] % 4 * 16;
    assert Decode(e) == Some([DigitValue(e[0]) * 4 + DigitValue(e[1]) / 16]);
    assert [DigitValue(e[0]) * 4 + DigitValue(e[1]) / 16] == s;
  }

  /** Three letters and "=" decode to the first two octets of their group. */
  lemma DecodePaddedGroup(v0: int, v1: int, v2: int)
    requires 0 <= v0 < 64 && 0 <= v1 < 64 && 0 <= v2 < 64
    ensures Decode([Digit(v0), Digit(v1), Digit(v2), '=']) == Some([v0 * 4 + v1 / 16, v1 % 16 * 16 + v2 / 4])
  {
    var e := [Digit(v0), Digit(v1), Digit(v2), '='];
    DigitValueOfDigit(v0);
    DigitValueOfDigit(v1);
    DigitValueOfDigit(v2);
    assert e[2] != '=';
    var d := DecodeGroup(e[0], e[1], e[2], 'A');
    assert d[..2] == [v0 * 4 + v1 / 16, v1 % 16 * 16 + v2 / 4];
  }

  /** The sextets of two octets put back together give the octets. */
  lemma JoinTwoOctets(b0: Byte, b1: Byte)
    ensures var v0, v1, v2 := b0 / 4, b0 % 4 * 16 + b1 / 16, b1 % 16 * 4;
      v0 * 4 + v1 / 16 == b0 && v1 % 16 * 16 + v2 / 4 == b1
  {
    SplitSextet(b0 % 4, b1 / 16, 16);
    SplitSextet(b1 % 16, 0, 4);
    JoinOctet(b0, 4);
    JoinOctet(b1, 16);
  }

  /** Decoding the final group of two octets gives them back. */
  lemma DecodeLastTwo(b0: Byte, b1: Byte)
    ensures Decode(EncodeLastTwo(b0, b1)) == Some([b0, b1])
  {
    DecodePaddedGroup(b0 / 4, b0 % 4 * 16 + b1 / 16, b1 % 16 * 4);
    JoinTwoOctets(b0, b1);
  }

  /** Two octets are encoded as their final group. */
  lemma EncodeTwo(s: seq<Byte>)
    requires |s| == 2
    ensures Encode(s) == EncodeLastTwo(s[0], s[1])
  {
  }

  /** A sequence of two octets is the sequence of its two elements. */
  lemma RejoinTwo(s: seq<Byte>)
    requires |s| == 2
    ensures [s[0], s[1]] == s
  {
  }

  /** The final group of two octets, padded with "=". */
  lemma DecodeEncodeTwo(s: seq<Byte>)
    requires |s| == 2
    ensures Decode(Encode(s)) == Some(s)
  {
    EncodeTwo(s);
    DecodeLastTwo(s[0], s[1]);
    RejoinTwo(s);
  }

  /** Four letters in front of a text decode to their group in front of the text's octets. */
  lemma DecodeFullGroup(g: string, rest: string, octets: seq<Byte>)
    requires |g| == 4 && IsDigit(g[0]) && IsDigit(g[1]) && IsDigit(g[2]) && IsDigit(g[3])
    requires Decode(rest) == Some(octets)
    ensures Decode(g + rest) == Some(DecodeGroup(g[0], g[1], g[2], g[3]) + octets)
  {
    var t := g + rest;
    assert t[0] == g[0] && t[1] == g[1] && t[2] == g[2] && t[3] == g[3] && t[4..] == rest;
    assert t[3] != '=';
  }

  /** An encoding with a full group in front decodes to that group's octets in front of the rest's. */
  lemma DecodeEncodeFront(s: seq<Byte>)
    requires |s| >= 3 && Decode(Encode(s[3..])) == Some(s[3..])
    ensures var g := EncodeGroup(s[0], s[1], s[2]);
      Decode(Encode(s)) == Some(DecodeGroup(g[0], g[1], g[2], g[3]) + s[3..])
  {
    var g, rest := EncodeGroup(s[0], s[1], s[2]), Encode(s[3..]);
    assert Encode(s) == g + rest;
    DecodeFullGroup(g, rest, s[3..]);
  }

  /** The first three octets put back in front of the rest give the whole. */
  lemma RejoinGroup(s: seq<Byte>, front: seq<Byte>)
    requires |s| >= 3 && front == [s[0], s[1], s[2]]
    ensures front + s[3..] == s
  {
  }

  /** A full group in front: if the rest decodes back, so does the whole. */
  lemma DecodeEncodeStep(s: seq<Byte>)
    requires |s| >= 3 && Decode(Encode(s[3..])) == Some(s[3..])
    ensures Decode(Encode(s)) == Some(s)
  {
    DecodeEncodeFront(s);
    DecodeEncodeGroup(s[0], s[1], s[2]);
    var g := EncodeGroup(s[0], s[1], s[2]);
    RejoinGroup(s, DecodeGroup(g[0], g[1], g[2], g[3]));
  }

  /** Decoding an encoding gives back the octets encoded. */
  lemma {:induction false} DecodeEncode(s: seq<Byte>)
    ensures Decode(Encode(s)) == Some(s)
    decreases |s|
  {
    if |s| == 1 {
      DecodeEncodeOne(s);
    } else if |s| == 2 {
      DecodeEncodeTwo(s);
    } else if |s| >= 3 {
      DecodeEncode(s[3..]);
      DecodeEncodeStep(s);
    }
  }
}
