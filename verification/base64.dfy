/** Bytes, and the standard base64 encoding of section 4 of RFC 4648 (the
    alphabet A-Z a-z 0-9 + /, with `=` padding) that turns the display
    bitmap into a data URL, together with its decoder. */
module Base64 {
  import opened Wrappers

  type byte = x: int | 0 <= x < 256

  type sextet = x: int | 0 <= x < 64

  function SextetChar(k: sextet): char {
    if k < 26 then ('A' as int + k) as char
    else if k < 52 then ('a' as int + (k - 26)) as char
    else if k < 62 then ('0' as int + (k - 52)) as char
    else if k == 62 then '+'
    else '/'
  }

  predicate IsBase64Char(c: char) {
    ('A' <= c <= 'Z') || ('a' <= c <= 'z') || ('0' <= c <= '9') || c == '+' || c == '/'
  }

  function CharSextet(c: char): (k: sextet)
    requires IsBase64Char(c)
    ensures SextetChar(k) == c
  {
    if 'A' <= c <= 'Z' then c as int - 'A' as int
    else if 'a' <= c <= 'z' then c as int - 'a' as int + 26
    else if '0' <= c <= '9' then c as int - '0' as int + 52
    else if c == '+' then 62
    else 63
  }

  lemma SextetRoundTrip(k: sextet)
    ensures IsBase64Char(SextetChar(k)) && CharSextet(SextetChar(k)) == k
  {
  }

  /** Three bytes as four characters: the 24 bits cut into four sextets. */
  function EncodeGroup(a: byte, b: byte, c: byte): (s: string)
    ensures |s| == 4
  {
    [SextetChar(a / 4), SextetChar((a % 4) * 16 + b / 16),
     SextetChar((b % 16) * 4 + c / 64), SextetChar(c % 64)]
  }

  lemma ThirdStep(n: nat)
    ensures (n + 3 + 2) / 3 == (n + 2) / 3 + 1
  {
  }

  /** The standard encoding, padded with `=` to a multiple of four. */
  function Encode(bs: seq<byte>): (s: string)
    ensures |s| == 4 * ((|bs| + 2) / 3)
    decreases |bs|
  {
    if |bs| == 0 then ""
    else if |bs| == 1 then EncodeGroup(bs[0], 0, 0)[..2] + "=="
    else if |bs| == 2 then EncodeGroup(bs[0], bs[1], 0)[..3] + "="
    else
      ThirdStep(|bs| - 3);
      EncodeGroup(bs[0], bs[1], bs[2]) + Encode(bs[3..])
  }

  function JoinFirst(k0: sextet, k1: sextet): byte {
    k0 * 4 + k1 / 16
  }

  function JoinSecond(k1: sextet, k2: sextet): byte {
    (k1 % 16) * 16 + k2 / 4
  }

  function JoinThird(k2: sextet, k3: sextet): byte {
    (k2 % 4) * 64 + k3
  }

  /** Four characters as the bytes they carry: three, or fewer before `=`;
      padded groups must leave their unused bits zero. */
  function DecodeGroup(s: string): Option<seq<byte>>
    requires |s| == 4
  {
    if !IsBase64Char(s[0]) || !IsBase64Char(s[1]) then None
    else
      var k0, k1 := CharSextet(s[0]), CharSextet(s[1]);
      if s[2] == '=' && s[3] == '=' then
        if k1 % 16 == 0 then Some([JoinFirst(k0, k1)]) else None
      else if !IsBase64Char(s[2]) then None
      else
        var k2 := CharSextet(s[2]);
        if s[3] == '=' then
          if k2 % 4 == 0 then Some([JoinFirst(k0, k1), JoinSecond(k1, k2)]) else None
        else if !IsBase64Char(s[3]) then None
        else Some([JoinFirst(k0, k1), JoinSecond(k1, k2), JoinThird(k2, CharSextet(s[3]))])
  }

  function Decode(s: string): Option<seq<byte>>
    decreases |s|
  {
    if |s| == 0 then Some([])
    else if |s| < 4 then None
    else
      match DecodeGroup(s[..4])
      case None => None
      case Some(g) =>
        if |g| < 3 && |s| > 4 then None
        else
          match Decode(s[4..])
          case None => None
          case Some(rest) => Some(g + rest)
  }

  lemma Split4(x: int, y: int)
    requires 0 <= y < 4
    ensures (x * 4 + y) / 4 == x && (x * 4 + y) % 4 == y
  {
  }

  lemma Split16(x: int, y: int)
    requires 0 <= y < 16
    ensures (x * 16 + y) / 16 == x && (x * 16 + y) % 16 == y
  {
  }

  lemma Split64(x: int, y: int)
    requires 0 <= y < 64
    ensures (x * 64 + y) / 64 == x && (x * 64 + y) % 64 == y
  {
  }

  lemma SextetsRejoin(a: byte, b: byte, c: byte)
    ensures JoinFirst(a / 4, (a % 4) * 16 + b / 16) == a
    ensures JoinSecond((a % 4) * 16 + b / 16, (b % 16) * 4 + c / 64) == b
    ensures JoinThird((b % 16) * 4 + c / 64, c % 64) == c
  {
    Split16(a % 4, b / 16);
    Split4(b % 16, c / 64);
  }

  lemma GroupChars(a: byte, b: byte, c: byte)
    ensures var s := EncodeGroup(a, b, c);
            IsBase64Char(s[0]) && IsBase64Char(s[1]) && IsBase64Char(s[2]) && IsBase64Char(s[3])
    ensures var s := EncodeGroup(a, b, c);
            CharSextet(s[0]) == a / 4 && CharSextet(s[1]) == (a % 4) * 16 + b / 16 &&
            CharSextet(s[2]) == (b % 16) * 4 + c / 64 && CharSextet(s[3]) == c % 64
  {
    SextetRoundTrip(a / 4);
    SextetRoundTrip((a % 4) * 16 + b / 16);
    SextetRoundTrip((b % 16) * 4 + c / 64);
    SextetRoundTrip(c % 64);
  }

  lemma GroupRoundTrip(a: byte, b: byte, c: byte)
    ensures DecodeGroup(EncodeGroup(a, b, c)) == Some([a, b, c])
  {
    GroupChars(a, b, c);
    SextetsRejoin(a, b, c);
  }

  lemma PairRoundTrip(a: byte, b: byte)
    ensures DecodeGroup(EncodeGroup(a, b, 0)[..3] + "=") == Some([a, b])
  {
    var g := EncodeGroup(a, b, 0);
    var t := g[..3] + "=";
    GroupChars(a, b, 0);
    SextetsRejoin(a, b, 0);
    Split4(b % 16, 0);
    assert t[0] == g[0] && t[1] == g[1] && t[2] == g[2] && t[3] == '=';
  }

  lemma SingleRoundTrip(a: byte)
    ensures DecodeGroup(EncodeGroup(a, 0, 0)[..2] + "==") == Some([a])
  {
    var g := EncodeGroup(a, 0, 0);
    var t := g[..2] + "==";
    GroupChars(a, 0, 0);
    assert t[0] == g[0] && t[1] == g[1] && t[2] == '=' && t[3] == '=';
    var k0: int := CharSextet(t[0]);
    var k1: int := CharSextet(t[1]);
    assert k0 == a / 4 && k1 == (a % 4) * 16;
    Split16(a % 4, 0);
    assert k1 % 16 == 0 && k1 / 16 == a % 4;
    assert a == (a / 4) * 4 + a % 4;
    assert JoinFirst(k0, k1) == a;
    assert DecodeGroup(t) == Some([JoinFirst(k0, k1)]);
  }

  lemma DecodeSingleGroup(t: string)
    requires |t| == 4 && DecodeGroup(t).Some?
    ensures Decode(t) == DecodeGroup(t)
  {
    assert t[..4] == t && t[4..] == [];
    assert DecodeGroup(t).value + [] == DecodeGroup(t).value;
  }

  lemma DecodeFullGroupThen(t: string, rest: string, x: seq<byte>, y: seq<byte>)
    requires |t| == 4 && DecodeGroup(t) == Some(x) && |x| == 3
    requires Decode(rest) == Some(y)
    ensures Decode(t + rest) == Some(x + y)
  {
    assert (t + rest)[..4] == t && (t + rest)[4..] == rest;
  }

  lemma RoundTripOne(bs: seq<byte>)
    requires |bs| == 1
    ensures Decode(Encode(bs)) == Some(bs)
  {
    SingleRoundTrip(bs[0]);
    DecodeSingleGroup(Encode(bs));
    assert bs == [bs[0]];
  }

  lemma RoundTripTwo(bs: seq<byte>)
    requires |bs| == 2
    ensures Decode(Encode(bs)) == Some(bs)
  {
    PairRoundTrip(bs[0], bs[1]);
    DecodeSingleGroup(Encode(bs));
    assert bs == [bs[0], bs[1]];
  }

  lemma {:induction false} RoundTripGroups(bs: seq<byte>)
    requires |bs| >= 3 && Decode(Encode(bs[3..])) == Some(bs[3..])
    ensures Decode(Encode(bs)) == Some(bs)
  {
    var head, tail := [bs[0], bs[1], bs[2]], bs[3..];
    var g, r := EncodeGroup(bs[0], bs[1], bs[2]), Encode(tail);
    assert Encode(bs) == g + r;
    GroupRoundTrip(bs[0], bs[1], bs[2]);
    DecodeFullGroupThen(g, r, head, tail);
    SplitThree(bs);
  }

  lemma SplitThree(bs: seq<byte>)
    requires |bs| >= 3
    ensures bs == [bs[0], bs[1], bs[2]] + bs[3..]
  {
  }

  /** Decoding an encoding gives the bytes back. */
  lemma {:induction false} RoundTrip(bs: seq<byte>)
    ensures Decode(Encode(bs)) == Some(bs)
    decreases |bs|
  {
    if |bs| == 1 {
      RoundTripOne(bs);
    } else if |bs| == 2 {
      RoundTripTwo(bs);
    } else if |bs| >= 3 {
      RoundTrip(bs[3..]);
      RoundTripGroups(bs);
    }
  }
}
