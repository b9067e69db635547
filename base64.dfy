/**
 * PHP's `base64_encode`: the base 64 encoding of section 4 of RFC 4648, with
 * the standard alphabet and '=' padding, and its decoding.
 */
module Base64 {
  import opened Options
  import opened Bytes

  /** The symbol for a 6-bit value (Table 1 of RFC 4648). */
  function Symbol(i: nat): (c: char)
    requires i < 64
  {
    if i < 26 then (65 + i) as char
    else if i < 52 then (97 + i - 26) as char
    else if i < 62 then (48 + i - 52) as char
    else if i == 62 then '+'
    else '/'
  }

  /** The 6-bit value of an alphabet symbol; the pad '=' and other characters have none. */
  function SymbolValue(c: char): (r: Option<nat>)
    ensures r.Some? ==> r.value < 64
  {
    if 'A' <= c <= 'Z' then Some(c as int - 65)
    else if 'a' <= c <= 'z' then Some(c as int - 97 + 26)
    else if '0' <= c <= '9' then Some(c as int - 48 + 52)
    else if c == '+' then Some(62)
    else if c == '/' then Some(63)
    else None
  }

  lemma SymbolDecodes(i: nat)
    requires i < 64
    ensures SymbolValue(Symbol(i)) == Some(i) && Symbol(i) != '='
  {
  }

  /** Three bytes become four symbols. */
  function EncodeGroup(b0: Byte, b1: Byte, b2: Byte): string
  {
    [Symbol(b0 / 4), Symbol((b0 % 4) * 16 + b1 / 16), Symbol((b1 % 16) * 4 + b2 / 64), Symbol(b2 % 64)]
  }

  function Encode(b: seq<Byte>): string
    decreases |b|
  {
    if |b| >= 3 then EncodeGroup(b[0], b[1], b[2]) + Encode(b[3..])
    else if |b| == 2 then [Symbol(b[0] / 4), Symbol((b[0] % 4) * 16 + b[1] / 16), Symbol((b[1] % 16) * 4), '=']
    else if |b| == 1 then [Symbol(b[0] / 4), Symbol((b[0] % 4) * 16), '=', '=']
    else []
  }

  /** A group of four symbols without padding. */
  function DecodeGroup(q: string): Option<seq<Byte>>
    requires |q| == 4
  {
    var v0, v1, v2, v3 := SymbolValue(q[0]), SymbolValue(q[1]), SymbolValue(q[2]), SymbolValue(q[3]);
    if v0.Some? && v1.Some? && v2.Some? && v3.Some? then
      Some([v0.value * 4 + v1.value / 16, (v1.value % 16) * 16 + v2.value / 4, (v2.value % 4) * 64 + v3.value])
    else None
  }

  /** The final group, which may end in one or two pads. */
  function DecodeLastGroup(q: string): Option<seq<Byte>>
    requires |q| == 4
  {
    var v0, v1, v2 := SymbolValue(q[0]), SymbolValue(q[1]), SymbolValue(q[2]);
    if q[2] == '=' && q[3] == '=' then
      if v0.Some? && v1.Some? then Some([v0.value * 4 + v1.value / 16]) else None
    else if q[3] == '=' then
      if v0.Some? && v1.Some? && v2.Some? then
        Some([v0.value * 4 + v1.value / 16, (v1.value % 16) * 16 + v2.value / 4])
      else None
    else DecodeGroup(q)
  }

  /** A length that is not a multiple of four is refused when fewer than four symbols remain. */
  function Decode(s: string): Option<seq<Byte>>
    decreases |s|
  {
    if |s| == 0 then Some([])
    else if |s| < 4 then None
    else if |s| == 4 then DecodeLastGroup(s)
    else
      match DecodeGroup(s[..4])
      case None => None
      case Some(g) =>
        match Decode(s[4..])
        case None => None
        case Some(rest) => Some(g + rest)
  }

  /** Four symbols for every started group of three bytes. */
  lemma {:induction false} EncodeLength(b: seq<Byte>)
    ensures |Encode(b)| == 4 * ((|b| + 2) / 3)
    decreases |b|
  {
    if |b| >= 3 {
      EncodeLength(b[3..]);
    }
  }

  lemma GroupRoundTrip(b0: Byte, b1: Byte, b2: Byte)
    ensures DecodeGroup(EncodeGroup(b0, b1, b2)) == Some([b0, b1, b2])
    ensures DecodeLastGroup(EncodeGroup(b0, b1, b2)) == Some([b0, b1, b2])
  {
    var c1 := (b0 % 4) * 16 + b1 / 16;
    var c2 := (b1 % 16) * 4 + b2 / 64;
    SymbolDecodes(b0 / 4);
    SymbolDecodes(c1);
    SymbolDecodes(c2);
    SymbolDecodes(b2 % 64);
    assert c1 / 16 == b0 % 4 && c1 % 16 == b1 / 16;
    assert c2 / 4 == b1 % 16 && c2 % 4 == b2 / 64;
  }

  lemma PairRoundTrip(b0: Byte, b1: Byte)
    ensures Decode(Encode([b0, b1])) == Some([b0, b1])
  {
    var c1 := (b0 % 4) * 16 + b1 / 16;
    var c2 := (b1 % 16) * 4;
    SymbolDecodes(b0 / 4);
    SymbolDecodes(c1);
    SymbolDecodes(c2);
    assert c1 / 16 == b0 % 4 && c1 % 16 == b1 / 16;
    assert c2 / 4 == b1 % 16;
    var q := Encode([b0, b1]);
    assert q == [Symbol(b0 / 4), Symbol(c1), Symbol(c2), '='];
    assert Decode(q) == DecodeLastGroup(q);
  }

  lemma SingleRoundTrip(b0: Byte)
    ensures Decode(Encode([b0])) == Some([b0])
  {
    SymbolDecodes(b0 / 4);
    SymbolDecodes((b0 % 4) * 16);
    var q := Encode([b0]);
    assert q == [Symbol(b0 / 4), Symbol((b0 % 4) * 16), '=', '='];
    assert Decode(q) == DecodeLastGroup(q);
  }

  /** A full group in front of a non-empty, well-formed remainder decodes group by group. */
  lemma DecodeCons(g: string, rest: string, x: seq<Byte>, y: seq<Byte>)
    requires |g| == 4 && |rest| > 0
    requires DecodeGroup(g) == Some(x) && Decode(rest) == Some(y)
    ensures Decode(g + rest) == Some(x + y)
  {
    var s := g + rest;
    assert |s| > 4;
    assert s[..4] == g && s[4..] == rest;
  }

  /** Decoding what base64_encode produced gives back the original bytes. */
  lemma {:induction false} DecodeEncode(b: seq<Byte>)
    ensures Decode(Encode(b)) == Some(b)
    decreases |b|
  {
    if |b| >= 3 {
      GroupRoundTrip(b[0], b[1], b[2]);
      var g := EncodeGroup(b[0], b[1], b[2]);
      assert Encode(b) == g + Encode(b[3..]);
      if |b| == 3 {
        assert Encode(b[3..]) == [];
        assert Encode(b) == g;
        assert b == [b[0], b[1], b[2]];
      } else {
        DecodeEncode(b[3..]);
        DecodeCons(g, Encode(b[3..]), [b[0], b[1], b[2]], b[3..]);
        assert b == [b[0], b[1], b[2]] + b[3..];
      }
    } else if |b| == 2 {
      PairRoundTrip(b[0], b[1]);
      assert b == [b[0], b[1]];
    } else if |b| == 1 {
      SingleRoundTrip(b[0]);
      assert b == [b[0]];
    }
  }
}
