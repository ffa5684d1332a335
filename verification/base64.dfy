/** The Base 64 encoding of section 4 of RFC 4648 (the standard alphabet with
    `=` padding), used to build the HTTP Basic credential of section 2 of
    RFC 7617. The decoder exists to state what the encoder means: decoding an
    encoding gives back the octets. */
module Base64 {
  import opened Common

  const Pad: char := '='

  /** Table 1 of RFC 4648: 0..25 -> 'A'..'Z', 26..51 -> 'a'..'z',
      52..61 -> '0'..'9', 62 -> '+', 63 -> '/'. */
  function ValueToChar(v: int): (c: char)
    requires 0 <= v < 64
    ensures IsBase64Char(c)
  {
    if v < 26 then (v + 'A' as int) as char
    else if v < 52 then (v - 26 + 'a' as int) as char
    else if v < 62 then (v - 52 + '0' as int) as char
    else if v == 62 then '+'
    else '/'
  }

  predicate IsBase64Char(c: char) {
    ('A' <= c <= 'Z') || ('a' <= c <= 'z') || ('0' <= c <= '9') || c == '+' || c == '/'
  }

  function CharToValue(c: char): (v: int)
    requires IsBase64Char(c)
    ensures 0 <= v < 64
  {
    if 'A' <= c <= 'Z' then c as int - 'A' as int
    else if 'a' <= c <= 'z' then c as int - 'a' as int + 26
    else if '0' <= c <= '9' then c as int - '0' as int + 52
    else if c == '+' then 62
    else 63
  }

  lemma ValueCharRoundTrip(v: int)
    requires 0 <= v < 64
    ensures CharToValue(ValueToChar(v)) == v
  {
  }

  /** Three octets as one 24-bit group, read as four 6-bit values, most
      significant first (section 4 of RFC 4648, first paragraph). */
  function EncodeGroup(b0: byte, b1: byte, b2: byte): (r: string)
    ensures |r| == 4
    ensures forall i :: 0 <= i < 4 ==> IsBase64Char(r[i])
  {
    [ValueToChar(b0 / 4), ValueToChar((b0 % 4) * 16 + b1 / 16),
     ValueToChar((b1 % 16) * 4 + b2 / 64), ValueToChar(b2 % 64)]
  }

  /** The encoded text of `s`: full groups, then the final quantum padded
      with one or two `=` characters (section 4 of RFC 4648, cases 2 and 3). */
  function Encode(s: seq<byte>): (r: string)
    ensures |r| == EncodedLength(|s|)
    ensures NoNul(r)
    decreases |s|
  {
    if |s| == 0 then []
    else if |s| == 1 then
      var g := EncodeGroup(s[0], 0, 0);
      [g[0], g[1], Pad, Pad]
    else if |s| == 2 then
      var g := EncodeGroup(s[0], s[1], 0);
      [g[0], g[1], g[2], Pad]
    else
      var rest := Encode(s[3..]);
      assert EncodedLength(|s|) == 4 + EncodedLength(|s| - 3);
      EncodeGroup(s[0], s[1], s[2]) + rest
  }

  /** Four output characters for every started group of three octets. */
  function EncodedLength(n: nat): nat {
    4 * ((n + 2) / 3)
  }

  /** Four characters back to the up-to-three octets they carry; `None` for
      anything the encoder never produces in that position. */
  function DecodeGroup(g: string): (r: Option<seq<byte>>)
    requires |g| == 4
  {
    if !IsBase64Char(g[0]) || !IsBase64Char(g[1]) then None
    else
      var v0, v1 := CharToValue(g[0]), CharToValue(g[1]);
      var o0 := v0 * 4 + v1 / 16;
      if g[2] == Pad && g[3] == Pad then Some([o0])
      else if !IsBase64Char(g[2]) then None
      else
        var v2 := CharToValue(g[2]);
        var o1 := (v1 % 16) * 16 + v2 / 4;
        if g[3] == Pad then Some([o0, o1])
        else if !IsBase64Char(g[3]) then None
        else
          var v3 := CharToValue(g[3]);
          Some([o0, o1, (v2 % 4) * 64 + v3])
  }

  function Decode(t: string): (r: Option<seq<byte>>)
    decreases |t|
  {
    if |t| == 0 then Some([])
    else if |t| < 4 then None
    else
      match DecodeGroup(t[..4])
      case None => None
      case Some(head) =>
        if |head| < 3 && |t| > 4 then None
        else
          match Decode(t[4..])
          case None => None
          case Some(tail) => Some(head + tail)
  }

  lemma GroupRoundTrip(b0: byte, b1: byte, b2: byte)
    ensures DecodeGroup(EncodeGroup(b0, b1, b2)) == Some([b0, b1, b2])
  {
    var v1, v2 := (b0 % 4) * 16 + b1 / 16, (b1 % 16) * 4 + b2 / 64;
    ValueCharRoundTrip(b0 / 4);
    ValueCharRoundTrip(v1);
    ValueCharRoundTrip(v2);
    ValueCharRoundTrip(b2 % 64);
    GroupArithmetic(b0, b1, b2);
  }

  /** The 6-bit values of a group put back together give its octets. */
  lemma GroupArithmetic(b0: byte, b1: byte, b2: byte)
    ensures var v1, v2 := (b0 % 4) * 16 + b1 / 16, (b1 % 16) * 4 + b2 / 64;
            && (b0 / 4) * 4 + v1 / 16 == b0
            && (v1 % 16) * 16 + v2 / 4 == b1
            && (v2 % 4) * 64 + b2 % 64 == b2
  {
    var v1, v2 := (b0 % 4) * 16 + b1 / 16, (b1 % 16) * 4 + b2 / 64;
    assert v1 / 16 == b0 % 4 && v1 % 16 == b1 / 16;
    assert v2 / 4 == b1 % 16 && v2 % 4 == b2 / 64;
  }

  lemma OneOctetRoundTrip(b0: byte)
    ensures var g := EncodeGroup(b0, 0, 0);
            DecodeGroup([g[0], g[1], Pad, Pad]) == Some([b0])
  {
    ValueCharRoundTrip(b0 / 4);
    ValueCharRoundTrip((b0 % 4) * 16);
  }

  lemma TwoOctetRoundTrip(b0: byte, b1: byte)
    ensures var g := EncodeGroup(b0, b1, 0);
            DecodeGroup([g[0], g[1], g[2], Pad]) == Some([b0, b1])
  {
    ValueCharRoundTrip(b0 / 4);
    ValueCharRoundTrip((b0 % 4) * 16 + b1 / 16);
    ValueCharRoundTrip((b1 % 16) * 4);
  }

  /** A full group followed by more text decodes group by group. */
  lemma DecodeAppend(g: string, rest: string, head: seq<byte>, tail: seq<byte>)
    requires |g| == 4 && DecodeGroup(g) == Some(head) && |head| == 3
    requires Decode(rest) == Some(tail)
    ensures Decode(g + rest) == Some(head + tail)
  {
    var t := g + rest;
    assert t[..4] == g;
    assert t[4..] == rest;
  }

  /** The last, padded quantum decodes on its own. */
  lemma DecodeFinal(g: string, head: seq<byte>)
    requires |g| == 4 && DecodeGroup(g) == Some(head)
    ensures Decode(g) == Some(head)
  {
    assert g[..4] == g;
    assert g[4..] == [];
    assert head + [] == head;
  }

  lemma DecodeEncodeOne(s: seq<byte>)
    requires |s| == 1
    ensures Decode(Encode(s)) == Some(s)
  {
    OneOctetRoundTrip(s[0]);
    DecodeFinal(Encode(s), [s[0]]);
    assert [s[0]] == s;
  }

  lemma DecodeEncodeTwo(s: seq<byte>)
    requires |s| == 2
    ensures Decode(Encode(s)) == Some(s)
  {
    TwoOctetRoundTrip(s[0], s[1]);
    DecodeFinal(Encode(s), [s[0], s[1]]);
    assert [s[0], s[1]] == s;
  }

  /** Decoding inverts encoding for every octet string. */
  lemma {:induction false} DecodeEncode(s: seq<byte>)
    ensures Decode(Encode(s)) == Some(s)
    decreases |s|
  {
    if |s| == 0 {
    } else if |s| == 1 {
      DecodeEncodeOne(s);
    } else if |s| == 2 {
      DecodeEncodeTwo(s);
    } else {
      DecodeEncode(s[3..]);
      DecodeEncodeGroup(s);
    }
  }

  lemma DecodeEncodeGroup(s: seq<byte>)
    requires |s| >= 3 && Decode(Encode(s[3..])) == Some(s[3..])
    ensures Decode(Encode(s)) == Some(s)
  {
    EncodeFirstGroup(s);
    DecodeFirstGroup(s);
    SplitFirstThree(s);
  }

  lemma SplitFirstThree(s: seq<byte>)
    requires |s| >= 3
    ensures [s[0], s[1], s[2]] + s[3..] == s
  {
  }

  lemma EncodeFirstGroup(s: seq<byte>)
    requires |s| >= 3
    ensures Encode(s) == EncodeGroup(s[0], s[1], s[2]) + Encode(s[3..])
  {
  }

  lemma DecodeFirstGroup(s: seq<byte>)
    requires |s| >= 3 && Decode(Encode(s[3..])) == Some(s[3..])
    ensures Decode(EncodeGroup(s[0], s[1], s[2]) + Encode(s[3..])) == Some([s[0], s[1], s[2]] + s[3..])
  {
    GroupRoundTrip(s[0], s[1], s[2]);
    DecodeAppend(EncodeGroup(s[0], s[1], s[2]), Encode(s[3..]), [s[0], s[1], s[2]], s[3..]);
  }

  /** The encoder is injective: different octet strings never share a text. */
  lemma EncodeInjective(s: seq<byte>, s': seq<byte>)
    requires Encode(s) == Encode(s')
    ensures s == s'
  {
    DecodeEncode(s);
    DecodeEncode(s');
  }
}
