/**
 Percent-decoding of a URI component, as the ECMAScript function
 `decodeURIComponent` performs it: every `%XY` escape (section 2.1 of
 RFC 3986) is replaced by the octet it denotes, an escape of an octet of 0x80
 or more must start a run of escapes that together form one UTF-8 sequence
 (RFC 3629), and any malformed escape makes the whole call fail (a URIError).
 Unlike `decodeURI`, no escape is kept as it is: the reserved set is empty.

 `Encode` models `encodeURIComponent`, the inverse direction, and serves as
 the partner that the decoder is proved against.
 */
module UriComponent {
  import opened Wrappers
  import Utf8

  predicate IsHexDigit(c: char) {
    ('0' <= c <= '9') || ('a' <= c <= 'f') || ('A' <= c <= 'F')
  }

  function HexValue(c: char): (v: nat)
    requires IsHexDigit(c)
    ensures v < 16
  {
    if '0' <= c <= '9' then c as int - '0' as int
    else if 'a' <= c <= 'f' then c as int - 'a' as int + 10
    else c as int - 'A' as int + 10
  }

  /** The upper-case hexadecimal digit that `encodeURIComponent` writes. */
  function HexDigit(v: nat): (c: char)
    requires v < 16
    ensures IsHexDigit(c) && HexValue(c) == v
  {
    if v < 10 then ('0' as int + v) as char else ('A' as int + v - 10) as char
  }

  /** s holds a well-formed escape `%XY` at position k. */
  predicate IsEscapeAt(s: string, k: nat) {
    k + 2 < |s| && s[k] == '%' && IsHexDigit(s[k + 1]) && IsHexDigit(s[k + 2])
  }

  function EscapedOctet(s: string, k: nat): Utf8.Byte
    requires IsEscapeAt(s, k)
  {
    HexValue(s[k + 1]) * 16 + HexValue(s[k + 2])
  }

  /** The octets of n consecutive escapes at the start of s, if they are all there. */
  function OctetsAt(s: string, n: nat): (r: Option<seq<Utf8.Byte>>)
    ensures r.Some? ==> 3 * n <= |s| && |r.value| == n
    ensures r.Some? ==> forall k :: 0 <= k < 3 * n && s[k] == '%' ==> IsEscapeAt(s, k)
    ensures r.Some? ==> forall m :: 0 <= m < n ==> IsEscapeAt(s, 3 * m) && r.value[m] == EscapedOctet(s, 3 * m)
    ensures r.None? <==> !(forall m :: 0 <= m < n ==> IsEscapeAt(s, 3 * m))
  {
    if n == 0 then Some([])
    else if !IsEscapeAt(s, 0) then
      assert !IsEscapeAt(s, 3 * 0);
      None
    else match OctetsAt(s[3..], n - 1)
      case None =>
        var m' :| 0 <= m' < n - 1 && !IsEscapeAt(s[3..], 3 * m');
        assert !IsEscapeAt(s, 3 * (m' + 1));
        None
      case Some(rest) =>
        assert forall k :: 3 <= k < 3 * n && s[k] == '%' ==> IsEscapeAt(s[3..], k - 3);
        assert forall m :: 1 <= m < n ==> IsEscapeAt(s[3..], 3 * (m - 1)) ==>
          IsEscapeAt(s, 3 * m) && EscapedOctet(s[3..], 3 * (m - 1)) == EscapedOctet(s, 3 * m);
        Some([EscapedOctet(s, 0)] + rest)
  }

  function Cons(c: char, r: Option<string>): Option<string> {
    match r
    case None => None
    case Some(t) => Some([c] + t)
  }

  /** `decodeURIComponent(s)`: None where the call throws a URIError. */
  function Decode(s: string): (r: Option<string>)
    decreases |s|
  {
    if s == [] then Some([])
    else if s[0] != '%' then Cons(s[0], Decode(s[1..]))
    else if !IsEscapeAt(s, 0) then None
    else
      var b := EscapedOctet(s, 0);
      if b < 0x80 then Cons(b as char, Decode(s[3..]))
      else
        var n := Utf8.LeadingOnes(b);
        if n == 1 || n > 4 then None
        else match OctetsAt(s, n)
          case None => None
          case Some(octets) =>
            match Utf8.DecodeScalar(octets)
            case None => None
            case Some(c) => Cons(c, Decode(s[3 * n..]))
  }

  /** The characters that `encodeURIComponent` leaves as they are. */
  predicate IsUnreserved(c: char) {
    ('A' <= c <= 'Z') || ('a' <= c <= 'z') || ('0' <= c <= '9')
    || c in "-_.!~*'()"
  }

  function EscapeOctets(bs: seq<Utf8.Byte>): (s: string)
    ensures |s| == 3 * |bs|
  {
    if bs == [] then []
    else ['%', HexDigit(bs[0] / 16), HexDigit(bs[0] % 16)] + EscapeOctets(bs[1..])
  }

  function EncodeChar(c: char): string {
    if IsUnreserved(c) then [c] else EscapeOctets(Utf8.Encode(c))
  }

  /** `encodeURIComponent(s)`. */
  function Encode(s: string): string {
    if s == [] then [] else EncodeChar(s[0]) + Encode(s[1..])
  }

  /** The escapes written for a run of octets read back as those octets. */
  lemma {:induction false} OctetsOfEscapes(bs: seq<Utf8.Byte>, t: string)
    ensures OctetsAt(EscapeOctets(bs) + t, |bs|) == Some(bs)
  {
    if bs != [] {
      var b := bs[0];
      var rest := EscapeOctets(bs[1..]) + t;
      var s := EscapeOctets(bs) + t;
      assert s == ['%', HexDigit(b / 16), HexDigit(b % 16)] + rest;
      assert s[3..] == rest;
      assert IsEscapeAt(s, 0);
      assert EscapedOctet(s, 0) == HexValue(HexDigit(b / 16)) * 16 + HexValue(HexDigit(b % 16)) == b;
      OctetsOfEscapes(bs[1..], t);
      assert [b] + bs[1..] == bs;
    }
  }

  /** Decoding consumes the encoding of one character and yields that character. */
  lemma DecodeEncodeChar(c: char, t: string)
    ensures Decode(EncodeChar(c) + t) == Cons(c, Decode(t))
  {
    var s := EncodeChar(c) + t;
    if !IsUnreserved(c) {
      var bs := Utf8.Encode(c);
      OctetsOfEscapes(bs, t);
      assert s[..3] == EscapeOctets(bs)[..3];
      assert IsEscapeAt(s, 0) && EscapedOctet(s, 0) == bs[0];
      Utf8.DecodeEncode(c);
      if |bs| == 1 {
        assert s[3..] == t;
      } else {
        assert s[3 * |bs|..] == t;
      }
    } else {
      assert s[1..] == t;
    }
  }

  /** Round trip: `decodeURIComponent(encodeURIComponent(s)) == s` for every string. */
  lemma {:induction false} DecodeEncode(s: string)
    ensures Decode(Encode(s)) == Some(s)
  {
    if s != [] {
      assert Encode(s) == EncodeChar(s[0]) + Encode(s[1..]);
      DecodeEncodeChar(s[0], Encode(s[1..]));
      DecodeEncode(s[1..]);
      assert [s[0]] + s[1..] == s;
    }
  }

  /** A component without any `%` decodes to itself. */
  lemma {:induction false} DecodeWithoutEscapes(s: string)
    requires '%' !in s
    ensures Decode(s) == Some(s)
  {
    if s != [] {
      DecodeWithoutEscapes(s[1..]);
      assert [s[0]] + s[1..] == s;
    }
  }

  /**
   A `%` that does not start a well-formed `%XY` escape, wherever it stands,
   makes decoding fail.
   */
  lemma {:induction false} DecodeRejectsMalformedEscape(s: string, k: nat)
    requires k < |s| && s[k] == '%' && !IsEscapeAt(s, k)
    ensures Decode(s) == None
    decreases |s|
  {
    if s[0] != '%' {
      DecodeRejectsMalformedEscape(s[1..], k - 1);
    } else if IsEscapeAt(s, 0) {
      var b := EscapedOctet(s, 0);
      assert k >= 3;
      if b < 0x80 {
        DecodeRejectsMalformedEscape(s[3..], k - 3);
      } else {
        var n := Utf8.LeadingOnes(b);
        if 2 <= n <= 4 && OctetsAt(s, n).Some? && Utf8.DecodeScalar(OctetsAt(s, n).value).Some? {
          DecodeRejectsMalformedEscape(s[3 * n..], k - 3 * n);
        }
      }
    }
  }

  lemma {:induction false} EscapeOctetsAlphabet(bs: seq<Utf8.Byte>)
    ensures forall c :: c in EscapeOctets(bs) ==> c == '%' || IsHexDigit(c)
  {
    if bs != [] {
      EscapeOctetsAlphabet(bs[1..]);
    }
  }

  /**
   `encodeURIComponent` writes only unreserved characters, `%` and hex
   digits, and writes nothing only for the empty string.
   */
  lemma {:induction false} EncodeAlphabet(s: string)
    ensures forall c :: c in Encode(s) ==> IsUnreserved(c) || c == '%' || IsHexDigit(c)
    ensures Encode(s) == [] <==> s == []
  {
    if s != [] {
      EncodeAlphabet(s[1..]);
      if !IsUnreserved(s[0]) {
        EscapeOctetsAlphabet(Utf8.Encode(s[0]));
      }
    }
  }
}
