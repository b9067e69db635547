/**
 * PHP's `rawurlencode`: percent-encoding as in section 2.1 of RFC 3986,
 * leaving exactly the unreserved characters of section 2.3 as they are and
 * writing every other byte as '%' followed by two upper-case hex digits.
 */
module PercentEncoding {
  import opened Options
  import opened Bytes

  const Percent: Byte := 37

  /** ALPHA / DIGIT / "-" / "." / "_" / "~" */
  predicate Unreserved(b: Byte)
  {
    65 <= b <= 90 || 97 <= b <= 122 || 48 <= b <= 57 || b == 45 || b == 46 || b == 95 || b == 126
  }

  function HexDigit(d: nat): (h: Byte)
    requires d < 16
    ensures Unreserved(h)
  {
    if d < 10 then 48 + d else 55 + d
  }

  /** The value of a hex digit; RFC 3986 lets either case stand for A to F. */
  function HexValue(h: Byte): (r: Option<nat>)
    ensures r.Some? ==> r.value < 16
  {
    if 48 <= h <= 57 then Some(h - 48)
    else if 65 <= h <= 70 then Some(h - 55)
    else if 97 <= h <= 102 then Some(h - 87)
    else None
  }

  function EncodeByte(b: Byte): seq<Byte>
  {
    if Unreserved(b) then [b] else [Percent, HexDigit(b / 16), HexDigit(b % 16)]
  }

  /** `rawurlencode(s)`: its output holds only unreserved bytes and '%'. */
  function RawUrlEncode(s: seq<Byte>): (r: seq<Byte>)
    ensures forall i :: 0 <= i < |r| ==> Unreserved(r[i]) || r[i] == Percent
    decreases |s|
  {
    if s == [] then [] else EncodeByte(s[0]) + RawUrlEncode(s[1..])
  }

  /** Reverses percent-encoding; a '%' not followed by two hex digits is refused. */
  function PercentDecode(s: seq<Byte>): Option<seq<Byte>>
    decreases |s|
  {
    if s == [] then Some([])
    else if s[0] == Percent then
      if |s| >= 3 && HexValue(s[1]).Some? && HexValue(s[2]).Some? then
        match PercentDecode(s[3..])
        case None => None
        case Some(rest) => Some([HexValue(s[1]).value * 16 + HexValue(s[2]).value] + rest)
      else None
    else
      match PercentDecode(s[1..])
      case None => None
      case Some(rest) => Some([s[0]] + rest)
  }

  /** Decoding what rawurlencode produced gives back the original bytes. */
  lemma {:induction false} DecodeEncode(s: seq<Byte>)
    ensures PercentDecode(RawUrlEncode(s)) == Some(s)
    decreases |s|
  {
    if s != [] {
      DecodeEncode(s[1..]);
      var e := EncodeByte(s[0]);
      var r := RawUrlEncode(s);
      assert r == e + RawUrlEncode(s[1..]);
      assert r[|e|..] == RawUrlEncode(s[1..]);
      if !Unreserved(s[0]) {
        assert r[0] == Percent && r[1] == HexDigit(s[0] / 16) && r[2] == HexDigit(s[0] % 16);
        assert [s[0]] + s[1..] == s;
      } else {
        assert r[0] == s[0];
        assert [s[0]] + s[1..] == s;
      }
    }
  }
}
