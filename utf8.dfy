/**
 * UTF-8 (RFC 3629) on Unicode scalar values: what String.getBytes("utf-8")
 * produces for a string without lone surrogates.
 */
module Utf8 {
  import opened Options
  import opened Bytes

  /** True when every character of `s` is a 7-bit ASCII character. */
  predicate IsAsciiText(s: string)
  {
    forall i | 0 <= i < |s| :: s[i] as int < 128
  }

  /** The one to four octets of one scalar value. */
  function EncodeChar(c: char): (r: seq<Byte>)
    ensures 1 <= |r| <= 4
    ensures c as int < 128 ==> r == [c as int]
    ensures c as int >= 128 ==> forall i | 0 <= i < |r| :: r[i] >= 128
  {
    var cp := c as int;
    var q1 := cp / 64;
    var q2 := q1 / 64;
    var q3 := q2 / 64;
    if cp < 0x80 then [cp]
    else if cp < 0x800 then [0xC0 + q1, 0x80 + cp % 64]
    else if cp < 0x10000 then [0xE0 + q2, 0x80 + q1 % 64, 0x80 + cp % 64]
    else [0xF0 + q3, 0x80 + q2 % 64, 0x80 + q1 % 64, 0x80 + cp % 64]
  }

  /** Encode: the characters' octet sequences, one after the other. */
  function Encode(s: string): (r: seq<Byte>)
    ensures |s| <= |r| <= 4 * |s|
    ensures IsAsciiText(s) ==> |r| == |s| && forall i | 0 <= i < |s| :: r[i] == s[i] as int
    decreases |s|
  {
    if |s| == 0 then [] else EncodeChar(s[0]) + Encode(s[1..])
  }

  /** The length of the sequence a lead octet starts, or 0 when it cannot start one. */
  function SequenceLength(lead: Byte): nat
  {
    if lead < 0x80 then 1
    else if 0xC0 <= lead < 0xE0 then 2
    else if 0xE0 <= lead < 0xF0 then 3
    else if 0xF0 <= lead < 0xF8 then 4
    else 0
  }

  predicate IsContinuation(b: Byte)
  {
    0x80 <= b < 0xC0
  }

  /** The scalar value one complete sequence stands for, or None for an overlong form, a surrogate or a value past U+10FFFF. */
  function DecodeChar(bs: seq<Byte>): Option<char>
    requires 1 <= |bs| <= 4 && SequenceLength(bs[0]) == |bs|
  {
    if |bs| == 1 then Some(bs[0] as char)
    else if exists i | 1 <= i < |bs| :: !IsContinuation(bs[i]) then None
    else
      var b0, b1 := bs[0] as int, bs[1] as int;
      if |bs| == 2 then
        var cp := (b0 - 0xC0) * 64 + (b1 - 0x80);
        if cp >= 0x80 then Some(cp as char) else None
      else if |bs| == 3 then
        var cp := ((b0 - 0xE0) * 64 + (b1 - 0x80)) * 64 + (bs[2] as int - 0x80);
        if cp >= 0x800 && (cp < 0xD800 || 0xE000 <= cp) then Some(cp as char) else None
      else
        var cp := (((b0 - 0xF0) * 64 + (b1 - 0x80)) * 64 + (bs[2] as int - 0x80)) * 64 + (bs[3] as int - 0x80);
        if 0x10000 <= cp < 0x110000 then Some(cp as char) else None
  }

  /** Decode: the text a sequence of octets stands for, or None when it is not well-formed UTF-8. */
  function Decode(bs: seq<Byte>): (r: Option<string>)
    decreases |bs|
  {
    if |bs| == 0 then Some("")
    else
      var n := SequenceLength(bs[0]);
      if n == 0 || |bs| < n then None
      else match DecodeChar(bs[..n])
        case None => None
        case Some(c) =>
          match Decode(bs[n..])
          case None => None
          case Some(rest) => Some([c] + rest)
  }

  /** One character's sequence announces its own length and decodes back to it. */
  lemma DecodeEncodeChar(c: char)
    ensures var e := EncodeChar(c);
      SequenceLength(e[0]) == |e| && DecodeChar(e) == Some(c)
  {
    var cp := c as int;
    var q1 := cp / 64;
    var q2 := q1 / 64;
    var q3 := q2 / 64;
    assert cp == q1 * 64 + cp % 64;
    assert q1 == q2 * 64 + q1 % 64;
    assert q2 == q3 * 64 + q2 % 64;
  }

  /** Decoding an encoding gives back the text encoded. */
  lemma {:induction false} DecodeEncode(s: string)
    ensures Decode(Encode(s)) == Some(s)
    decreases |s|
  {
    if |s| > 0 {
      var e, rest := EncodeChar(s[0]), Encode(s[1..]);
      var bs := Encode(s);
      assert bs == e + rest;
      DecodeEncodeChar(s[0]);
      assert bs[..|e|] == e && bs[|e|..] == rest;
      DecodeEncode(s[1..]);
      assert SequenceLength(bs[0]) == |e| && 0 < |e| <= |bs|;
      assert Decode(bs) == Some([s[0]] + s[1..]);
      assert s == [s[0]] + s[1..];
    }
  }
}
