/**
 * The Base64 text form of byte strings that the services store and exchange:
 * `java.util.Base64.getEncoder()` and `getDecoder()`, the basic alphabet of
 * RFC 4648, section 4, with `=` padding on output.
 *
 * The decoder accepts what Java's basic decoder accepts: groups of four alphabet
 * characters, and a final group of two or three characters that is either
 * unpadded or padded with exactly the right number of `=`. A single leftover
 * character, a wrong padding, a character outside the alphabet or anything after
 * the padding is rejected with IllegalArgumentException. Unused low bits of the
 * last character are ignored, as Java ignores them.
 */
module Base64 {
  import opened Bytes
  import opened Wrappers

  /** The character for a 6-bit value (RFC 4648, section 4, Table 1). */
  function CharOf(i: int): (c: char)
    requires 0 <= i < 64
    ensures IsBase64Char(c)
  {
    if i < 26 then ('A' as int + i) as char
    else if i < 52 then ('a' as int + (i - 26)) as char
    else if i < 62 then ('0' as int + (i - 52)) as char
    else if i == 62 then '+'
    else '/'
  }

  predicate IsBase64Char(c: char) {
    ('A' <= c <= 'Z') || ('a' <= c <= 'z') || ('0' <= c <= '9') || c == '+' || c == '/'
  }

  /** The 6-bit value of an alphabet character; it inverts CharOf. */
  function ValueOf(c: char): (i: int)
    requires IsBase64Char(c)
    ensures 0 <= i < 64 && CharOf(i) == c
  {
    if 'A' <= c <= 'Z' then c as int - 'A' as int
    else if 'a' <= c <= 'z' then c as int - 'a' as int + 26
    else if '0' <= c <= '9' then c as int - '0' as int + 52
    else if c == '+' then 62
    else 63
  }

  lemma ValueOfCharOf(i: int)
    requires 0 <= i < 64
    ensures ValueOf(CharOf(i)) == i
  {
  }

  /** Three bytes as four characters. */
  function EncodeGroup(b0: byte, b1: byte, b2: byte): string {
    [CharOf(b0 / 4), CharOf((b0 % 4) * 16 + b1 / 16), CharOf((b1 % 16) * 4 + b2 / 64), CharOf(b2 % 64)]
  }

  /** `Base64.getEncoder().encodeToString(b)`. */
  function Encode(b: seq<byte>): (s: string)
    decreases |b|
  {
    if |b| == 0 then ""
    else if |b| == 1 then [CharOf(b[0] / 4), CharOf((b[0] % 4) * 16), '=', '=']
    else if |b| == 2 then [CharOf(b[0] / 4), CharOf((b[0] % 4) * 16 + b[1] / 16), CharOf((b[1] % 16) * 4), '=']
    else EncodeGroup(b[0], b[1], b[2]) + Encode(b[3..])
  }

  /** The bytes of a full group of four alphabet characters. */
  function DecodeGroup(c0: char, c1: char, c2: char, c3: char): seq<byte>
    requires IsBase64Char(c0) && IsBase64Char(c1) && IsBase64Char(c2) && IsBase64Char(c3)
  {
    [ValueOf(c0) * 4 + ValueOf(c1) / 16, (ValueOf(c1) % 16) * 16 + ValueOf(c2) / 4, (ValueOf(c2) % 4) * 64 + ValueOf(c3)]
  }

  /** The one byte of a final group of two characters. */
  function DecodeTwo(c0: char, c1: char): seq<byte>
    requires IsBase64Char(c0) && IsBase64Char(c1)
  {
    [ValueOf(c0) * 4 + ValueOf(c1) / 16]
  }

  /** The two bytes of a final group of three characters. */
  function DecodeThree(c0: char, c1: char, c2: char): seq<byte>
    requires IsBase64Char(c0) && IsBase64Char(c1) && IsBase64Char(c2)
  {
    [ValueOf(c0) * 4 + ValueOf(c1) / 16, (ValueOf(c1) % 16) * 16 + ValueOf(c2) / 4]
  }

  /** `Base64.getDecoder().decode(s)`; a rejected text is an IllegalArgumentException. */
  function Decode(s: string): (r: Result<seq<byte>>)
    ensures r.Failure? ==> r.error == IllegalArgument
    decreases |s|
  {
    if |s| == 0 then Success([])
    else if |s| == 1 then Failure(IllegalArgument)
    else if |s| == 2 then
      if IsBase64Char(s[0]) && IsBase64Char(s[1]) then Success(DecodeTwo(s[0], s[1]))
      else Failure(IllegalArgument)
    else if |s| == 3 then
      if IsBase64Char(s[0]) && IsBase64Char(s[1]) && IsBase64Char(s[2]) then Success(DecodeThree(s[0], s[1], s[2]))
      else Failure(IllegalArgument)
    else if |s| == 4 && s[2] == '=' && s[3] == '=' then
      if IsBase64Char(s[0]) && IsBase64Char(s[1]) then Success(DecodeTwo(s[0], s[1]))
      else Failure(IllegalArgument)
    else if |s| == 4 && s[3] == '=' then
      if IsBase64Char(s[0]) && IsBase64Char(s[1]) && IsBase64Char(s[2]) then Success(DecodeThree(s[0], s[1], s[2]))
      else Failure(IllegalArgument)
    else if IsBase64Char(s[0]) && IsBase64Char(s[1]) && IsBase64Char(s[2]) && IsBase64Char(s[3]) then
      match Decode(s[4..])
      case Success(rest) => Success(DecodeGroup(s[0], s[1], s[2], s[3]) + rest)
      case Failure(e) => Failure(e)
    else Failure(IllegalArgument)
  }

  lemma GroupRoundTrip(b0: byte, b1: byte, b2: byte)
    ensures var g := EncodeGroup(b0, b1, b2);
      DecodeGroup(g[0], g[1], g[2], g[3]) == [b0, b1, b2]
  {
    ValueOfCharOf(b0 / 4);
    ValueOfCharOf((b0 % 4) * 16 + b1 / 16);
    ValueOfCharOf((b1 % 16) * 4 + b2 / 64);
    ValueOfCharOf(b2 % 64);
  }

  /** Every encoded text holds alphabet characters and `=` only, so no line break. */
  lemma {:induction false} EncodeAlphabet(b: seq<byte>)
    ensures forall i :: 0 <= i < |Encode(b)| ==> IsBase64Char(Encode(b)[i]) || Encode(b)[i] == '='
    ensures |Encode(b)| == 4 * ((|b| + 2) / 3)
    decreases |b|
  {
    if |b| >= 3 {
      EncodeAlphabet(b[3..]);
      var g := EncodeGroup(b[0], b[1], b[2]);
      assert Encode(b) == g + Encode(b[3..]);
      assert forall i :: 0 <= i < |g| ==> IsBase64Char(g[i]);
    }
  }

  lemma OneByteRoundTrip(b: seq<byte>)
    requires |b| == 1
    ensures Decode(Encode(b)) == Success(b)
  {
    var x, y := b[0] / 4, (b[0] % 4) * 16;
    var s := Encode(b);
    assert s == [CharOf(x), CharOf(y), '=', '='];
    assert Decode(s) == Success(DecodeTwo(s[0], s[1]));
    ValueOfCharOf(x);
    ValueOfCharOf(y);
    assert y / 16 == b[0] % 4;
    assert DecodeTwo(s[0], s[1]) == [x * 4 + y / 16] == b;
  }

  lemma TwoBytesRoundTrip(b: seq<byte>)
    requires |b| == 2
    ensures Decode(Encode(b)) == Success(b)
  {
    var x, y, z := b[0] / 4, (b[0] % 4) * 16 + b[1] / 16, (b[1] % 16) * 4;
    var s := Encode(b);
    assert s == [CharOf(x), CharOf(y), CharOf(z), '='];
    assert Decode(s) == Success(DecodeThree(s[0], s[1], s[2]));
    ValueOfCharOf(x);
    ValueOfCharOf(y);
    ValueOfCharOf(z);
    assert y / 16 == b[0] % 4 && y % 16 == b[1] / 16 && z / 4 == b[1] % 16;
    assert DecodeThree(s[0], s[1], s[2]) == [x * 4 + y / 16, (y % 16) * 16 + z / 4] == b;
  }

  /** A full leading group is decoded, then the rest. */
  lemma DecodeLeadingGroup(g: string, rest: string)
    requires |g| == 4 && IsBase64Char(g[0]) && IsBase64Char(g[1]) && IsBase64Char(g[2]) && IsBase64Char(g[3])
    requires Decode(rest).Success?
    ensures Decode(g + rest) == Success(DecodeGroup(g[0], g[1], g[2], g[3]) + Decode(rest).value)
  {
    var s := g + rest;
    assert s[..4] == g && s[4..] == rest;
    assert s[2] == g[2] && s[3] == g[3];
    if |rest| == 0 {
      assert s == g;
    }
  }

  lemma SplitThree(b: seq<byte>)
    requires |b| >= 3
    ensures b == [b[0], b[1], b[2]] + b[3..]
  {
  }

  lemma LeadingGroupRoundTrip(b: seq<byte>)
    requires |b| >= 3 && Decode(Encode(b[3..])) == Success(b[3..])
    ensures Decode(Encode(b)) == Success(b)
  {
    var g := EncodeGroup(b[0], b[1], b[2]);
    assert Encode(b) == g + Encode(b[3..]);
    DecodeLeadingGroup(g, Encode(b[3..]));
    GroupRoundTrip(b[0], b[1], b[2]);
    SplitThree(b);
  }

  /** Decoding inverts encoding: the Base64 columns lose nothing. */
  lemma {:induction false} DecodeEncode(b: seq<byte>)
    ensures Decode(Encode(b)) == Success(b)
    decreases |b|
  {
    if |b| == 1 {
      OneByteRoundTrip(b);
    } else if |b| == 2 {
      TwoBytesRoundTrip(b);
    } else if |b| >= 3 {
      DecodeEncode(b[3..]);
      LeadingGroupRoundTrip(b);
    }
  }
}
