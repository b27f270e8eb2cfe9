/**
 UTF-8 as defined in RFC 3629: how one Unicode scalar value is written as one
 to four octets, and the strict decoding that `decodeURIComponent` applies to
 the octets of a multi-octet escape sequence. The decoder accepts exactly the
 shortest form of each scalar value: overlong forms, encoded surrogates and
 values above U+10FFFF are refused.
 */
module Utf8 {
  import opened Wrappers

  type Byte = x: int | 0 <= x < 0x100

  predicate IsContinuation(b: Byte) {
    0x80 <= b < 0xC0
  }

  /** The number of leading one bits of an octet. */
  function LeadingOnes(b: Byte): nat {
    if b < 0x80 then 0
    else if b < 0xC0 then 1
    else if b < 0xE0 then 2
    else if b < 0xF0 then 3
    else if b < 0xF8 then 4
    else if b < 0xFC then 5
    else if b < 0xFE then 6
    else if b < 0xFF then 7
    else 8
  }

  /** The smallest scalar value that needs an encoding of n octets. */
  function MinScalar(n: nat): int {
    if n <= 1 then 0 else if n == 2 then 0x80 else if n == 3 then 0x800 else 0x1_0000
  }

  /** The fixed high bits of the lead octet of an n-octet encoding. */
  function LeadMarker(n: nat): int {
    if n == 2 then 0xC0 else if n == 3 then 0xE0 else 0xF0
  }

  predicate IsScalarValue(cp: int) {
    (0 <= cp < 0xD800) || (0xE000 <= cp < 0x11_0000)
  }

  /** The shortest-form encoding of a scalar value (RFC 3629, section 3). */
  function Encode(c: char): (bs: seq<Byte>)
    ensures 1 <= |bs| <= 4
    ensures |bs| == 1 <==> c as int < 0x80
    ensures |bs| > 1 ==> LeadingOnes(bs[0]) == |bs|
    ensures forall i :: 1 <= i < |bs| ==> IsContinuation(bs[i])
  {
    var cp := c as int;
    // cp is cut into six-bit groups, least significant first
    var q0, r0 := cp / 0x40, cp % 0x40;
    var q1, r1 := q0 / 0x40, q0 % 0x40;
    var q2, r2 := q1 / 0x40, q1 % 0x40;
    if cp < 0x80 then [cp]
    else if cp < 0x800 then [0xC0 + q0, 0x80 + r0]
    else if cp < 0x1_0000 then [0xE0 + q1, 0x80 + r1, 0x80 + r0]
    else [0xF0 + q2, 0x80 + r2, 0x80 + r1, 0x80 + r0]
  }

  /** Cutting off the low six bits of hi * 64 + lo gives back hi and lo. */
  lemma SixBits(hi: int, lo: int)
    requires 0 <= lo < 0x40
    ensures (hi * 0x40 + lo) / 0x40 == hi && (hi * 0x40 + lo) % 0x40 == lo
  {
  }

  /** The value bits carried by a lead octet and its continuation octets. */
  function ValueBits(bs: seq<Byte>): int
    requires 2 <= |bs| <= 4
  {
    var lead := bs[0] - LeadMarker(|bs|);
    if |bs| == 2 then lead * 0x40 + (bs[1] as int - 0x80)
    else if |bs| == 3 then (lead * 0x40 + (bs[1] as int - 0x80)) * 0x40 + (bs[2] as int - 0x80)
    else ((lead * 0x40 + (bs[1] as int - 0x80)) * 0x40 + (bs[2] as int - 0x80)) * 0x40 + (bs[3] as int - 0x80)
  }

  /**
   Decodes a sequence of octets that must hold exactly one scalar value:
   None when the octets are not a valid UTF-8 encoding of one.
   */
  function DecodeScalar(bs: seq<Byte>): (r: Option<char>)
    ensures r.Some? ==> 1 <= |bs| <= 4
  {
    if |bs| == 1 && bs[0] < 0x80 then Some(bs[0] as char)
    else if |bs| < 2 || |bs| > 4 || LeadingOnes(bs[0]) != |bs| then None
    else if !(forall i :: 1 <= i < |bs| ==> IsContinuation(bs[i])) then None
    else
      var cp := ValueBits(bs);
      if MinScalar(|bs|) <= cp && IsScalarValue(cp) then Some(cp as char) else None
  }

  /** Decoding undoes encoding, for every scalar value. */
  lemma DecodeEncode(c: char)
    ensures DecodeScalar(Encode(c)) == Some(c)
  {
    var cp := c as int;
    var q0, r0 := cp / 0x40, cp % 0x40;
    var q1, r1 := q0 / 0x40, q0 % 0x40;
    var q2, r2 := q1 / 0x40, q1 % 0x40;
    assert cp == q0 * 0x40 + r0 && q0 == q1 * 0x40 + r1 && q1 == q2 * 0x40 + r2;
    var bs := Encode(c);
    if cp >= 0x80 {
      assert ValueBits(bs) == cp;
    }
  }

  /**
   The decoder accepts only shortest forms: every octet sequence it accepts
   is the encoding of the scalar value it yields.
   */
  lemma EncodeDecode(bs: seq<Byte>)
    requires DecodeScalar(bs).Some?
    ensures Encode(DecodeScalar(bs).value) == bs
  {
    if |bs| > 1 {
      var lead := bs[0] - LeadMarker(|bs|);
      var cp := ValueBits(bs);
      if |bs| == 2 {
        SixBits(lead, bs[1] as int - 0x80);
      } else if |bs| == 3 {
        SixBits(lead * 0x40 + (bs[1] as int - 0x80), bs[2] as int - 0x80);
        SixBits(lead, bs[1] as int - 0x80);
      } else {
        SixBits((lead * 0x40 + (bs[1] as int - 0x80)) * 0x40 + (bs[2] as int - 0x80), bs[3] as int - 0x80);
        SixBits(lead * 0x40 + (bs[1] as int - 0x80), bs[2] as int - 0x80);
        SixBits(lead, bs[1] as int - 0x80);
      }
    }
  }
}
