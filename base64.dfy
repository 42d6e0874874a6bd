/** The standard Base64 encoding of section 4 of RFC 4648 (alphabet A-Z, a-z,
    0-9, '+', '/', with '=' padding), a decoder that undoes it, and the ASCII
    encoding of a string that comes before it (`bytes(s, 'ascii')`). */
module Base64 {
  import opened Wrappers

  type byte = x: int | 0 <= x < 256

  /** The character of a 6-bit value in the Base64 alphabet. */
  function Sextet(n: int): (c: char)
    requires 0 <= n < 64
    ensures c != '=' && c != ','
  {
    if n < 26 then ('A' as int + n) as char
    else if n < 52 then ('a' as int + (n - 26)) as char
    else if n < 62 then ('0' as int + (n - 52)) as char
    else if n == 62 then '+'
    else '/'
  }

  /** The 6-bit value of a character of the alphabet; None for any other character. */
  function SextetValue(c: char): (r: Option<int>)
    ensures r.Some? ==> 0 <= r.value < 64
  {
    if 'A' <= c <= 'Z' then Some(c as int - 'A' as int)
    else if 'a' <= c <= 'z' then Some(c as int - 'a' as int + 26)
    else if '0' <= c <= '9' then Some(c as int - '0' as int + 52)
    else if c == '+' then Some(62)
    else if c == '/' then Some(63)
    else None
  }

  lemma SextetRoundTrip(n: int)
    requires 0 <= n < 64
    ensures SextetValue(Sextet(n)) == Some(n)
  {
  }

  /** Base64 of a byte string: every three bytes become four characters; a
      final one or two bytes become four characters ending in "==" or "=". */
  function Encode(bs: seq<byte>): (r: string)
    ensures |r| == (|bs| + 2) / 3 * 4
    decreases |bs|
  {
    if |bs| == 0 then ""
    else if |bs| == 1 then Single(bs[0])
    else if |bs| == 2 then Pair(bs[0], bs[1])
    else Quad(bs[0], bs[1], bs[2]) + Encode(bs[3..])
  }

  /** The four characters of a final single byte. */
  function Single(b0: byte): (r: string)
    ensures |r| == 4 && forall k :: 0 <= k < 4 ==> r[k] != ','
  {
    [Sextet(b0 / 4), Sextet(b0 % 4 * 16), '=', '=']
  }

  /** The four characters of two final bytes. */
  function Pair(b0: byte, b1: byte): (r: string)
    ensures |r| == 4 && forall k :: 0 <= k < 4 ==> r[k] != ','
  {
    [Sextet(b0 / 4), Sextet(b0 % 4 * 16 + b1 / 16), Sextet(b1 % 16 * 4), '=']
  }

  /** The four characters of three bytes. */
  function Quad(b0: byte, b1: byte, b2: byte): (r: string)
    ensures |r| == 4 && forall k :: 0 <= k < 4 ==> r[k] != ','
  {
    [Sextet(b0 / 4), Sextet(b0 % 4 * 16 + b1 / 16), Sextet(b1 % 16 * 4 + b2 / 64), Sextet(b2 % 64)]
  }

  /** Base64 decoding: None for a length that is not a multiple of four, a
      character outside the alphabet, or padding anywhere but at the end. */
  function Decode(s: string): (r: Option<seq<byte>>)
    decreases |s|
  {
    if |s| == 0 then Some([])
    else if |s| < 4 then None
    else
      var a, b, c, d := SextetValue(s[0]), SextetValue(s[1]), SextetValue(s[2]), SextetValue(s[3]);
      if a.None? || b.None? then None
      else if s[2] == '=' && s[3] == '=' then
        if |s| == 4 then Some([a.value * 4 + b.value / 16]) else None
      else if c.None? then None
      else if s[3] == '=' then
        if |s| == 4 then Some([a.value * 4 + b.value / 16, b.value % 16 * 16 + c.value / 4]) else None
      else if d.None? then None
      else match Decode(s[4..])
        case None => None
        case Some(rest) => Some(Group(a.value, b.value, c.value, d.value) + rest)
  }

  /** The three bytes of four 6-bit values. */
  function Group(a: int, b: int, c: int, d: int): seq<byte>
    requires 0 <= a < 64 && 0 <= b < 64 && 0 <= c < 64 && 0 <= d < 64
  {
    [a * 4 + b / 16, b % 16 * 16 + c / 4, c % 4 * 64 + d]
  }

  lemma DecodeFullGroup(s: string, a: int, b: int, c: int, d: int, t: string)
    requires 0 <= a < 64 && 0 <= b < 64 && 0 <= c < 64 && 0 <= d < 64
    requires s == [Sextet(a), Sextet(b), Sextet(c), Sextet(d)] + t
    ensures Decode(s) == match Decode(t)
      case None => None
      case Some(rest) => Some(Group(a, b, c, d) + rest)
  {
    Four(Sextet(a), Sextet(b), Sextet(c), Sextet(d), t);
    SextetRoundTrip(a);
    SextetRoundTrip(b);
    SextetRoundTrip(c);
    SextetRoundTrip(d);
  }

  lemma Four<T>(a: T, b: T, c: T, d: T, t: seq<T>)
    ensures var s := [a, b, c, d] + t;
      |s| >= 4 && s[0] == a && s[1] == b && s[2] == c && s[3] == d && s[4..] == t
  {
  }

  /** Base64 output holds no comma, so it can sit inside a comma-separated
      option value. */
  lemma {:induction false} EncodeCommaFree(bs: seq<byte>)
    ensures ',' !in Encode(bs)
    decreases |bs|
  {
    if |bs| >= 3 {
      EncodeCommaFree(bs[3..]);
      var q := Quad(bs[0], bs[1], bs[2]);
      assert ',' !in q;
    }
  }

  /** The bit arithmetic of one group: the 6-bit values of three bytes give
      the bytes back. */
  lemma GroupArithmetic(b0: byte, b1: byte, b2: byte)
    ensures b0 / 4 * 4 + (b0 % 4 * 16 + b1 / 16) / 16 == b0
    ensures (b0 % 4 * 16 + b1 / 16) % 16 * 16 + (b1 % 16 * 4 + b2 / 64) / 4 == b1
    ensures (b1 % 16 * 4 + b2 / 64) % 4 * 64 + b2 % 64 == b2
  {
  }

  lemma PairArithmetic(b0: byte, b1: byte)
    ensures b0 / 4 * 4 + (b0 % 4 * 16 + b1 / 16) / 16 == b0
    ensures (b0 % 4 * 16 + b1 / 16) % 16 * 16 + b1 % 16 * 4 / 4 == b1
  {
    GroupArithmetic(b0, b1, 0);
  }

  lemma GroupOfBytes(b0: byte, b1: byte, b2: byte)
    ensures Group(b0 / 4, b0 % 4 * 16 + b1 / 16, b1 % 16 * 4 + b2 / 64, b2 % 64) == [b0, b1, b2]
  {
    GroupArithmetic(b0, b1, b2);
  }

  /** Four characters ending in "==" decode to one byte. */
  lemma DecodePadded2(s: string, a: int, b: int)
    requires 0 <= a < 64 && 0 <= b < 64
    requires s == [Sextet(a), Sextet(b), '=', '=']
    ensures Decode(s) == Some([a * 4 + b / 16])
  {
    SextetRoundTrip(a);
    SextetRoundTrip(b);
  }

  /** Four characters ending in one "=" decode to two bytes. */
  lemma DecodePadded1(s: string, a: int, b: int, c: int)
    requires 0 <= a < 64 && 0 <= b < 64 && 0 <= c < 64
    requires s == [Sextet(a), Sextet(b), Sextet(c), '=']
    ensures Decode(s) == Some([a * 4 + b / 16, b % 16 * 16 + c / 4])
  {
    SextetRoundTrip(a);
    SextetRoundTrip(b);
    SextetRoundTrip(c);
  }

  lemma DecodeSingle(b0: byte)
    ensures Decode(Single(b0)) == Some([b0])
  {
    DecodePadded2(Single(b0), b0 / 4, b0 % 4 * 16);
    GroupArithmetic(b0, 0, 0);
  }

  lemma DecodePair(b0: byte, b1: byte)
    ensures Decode(Pair(b0, b1)) == Some([b0, b1])
  {
    DecodePadded1(Pair(b0, b1), b0 / 4, b0 % 4 * 16 + b1 / 16, b1 % 16 * 4);
    PairArithmetic(b0, b1);
  }

  /** Input that starts with the four characters of three bytes decodes to
      those bytes followed by the decoding of the rest. */
  lemma DecodeQuad(s: string, b0: byte, b1: byte, b2: byte, t: string)
    requires s == Quad(b0, b1, b2) + t
    ensures Decode(s) == match Decode(t)
      case None => None
      case Some(rest) => Some([b0, b1, b2] + rest)
  {
    DecodeFullGroup(s, b0 / 4, b0 % 4 * 16 + b1 / 16, b1 % 16 * 4 + b2 / 64, b2 % 64, t);
    GroupOfBytes(b0, b1, b2);
  }

  lemma Unfold1<T>(s: seq<T>)
    requires |s| == 1
    ensures s == [s[0]]
  {
  }

  lemma Unfold2<T>(s: seq<T>)
    requires |s| == 2
    ensures s == [s[0], s[1]]
  {
  }

  lemma Unfold3<T>(s: seq<T>)
    requires |s| >= 3
    ensures s == [s[0], s[1], s[2]] + s[3..]
  {
  }

  /** Decoding undoes encoding, for every byte string. */
  lemma {:induction false} DecodeEncode(bs: seq<byte>)
    ensures Decode(Encode(bs)) == Some(bs)
    decreases |bs|
  {
    if |bs| == 1 {
      DecodeSingle(bs[0]);
      Unfold1(bs);
    } else if |bs| == 2 {
      DecodePair(bs[0], bs[1]);
      Unfold2(bs);
    } else if |bs| >= 3 {
      DecodeEncode(bs[3..]);
      DecodeQuad(Encode(bs), bs[0], bs[1], bs[2], Encode(bs[3..]));
      Unfold3(bs);
    }
  }

  // ---------------------------------------------------------------------
  // bytes(s, 'ascii') and its inverse bytes.decode('ascii').

  predicate IsAscii(s: string) {
    forall k :: 0 <= k < |s| ==> s[k] as int < 128
  }

  /** `bytes(s, 'ascii')`: one byte per character, or None (the
      UnicodeEncodeError) when some character is not ASCII. */
  function AsciiBytes(s: string): (r: Option<seq<byte>>)
    ensures r.Some? <==> IsAscii(s)
    ensures r.Some? ==> |r.value| == |s| && forall k :: 0 <= k < |s| ==> r.value[k] == s[k] as int
  {
    if IsAscii(s) then Some(seq(|s|, k requires 0 <= k < |s| => s[k] as int as byte)) else None
  }

  /** `b.decode('ascii')` for bytes below 128. */
  function AsciiString(bs: seq<byte>): string
    requires forall k :: 0 <= k < |bs| ==> bs[k] < 128
  {
    seq(|bs|, k requires 0 <= k < |bs| => bs[k] as char)
  }

  lemma AsciiRoundTrip(s: string)
    requires IsAscii(s)
    ensures forall k :: 0 <= k < |AsciiBytes(s).value| ==> AsciiBytes(s).value[k] < 128
    ensures AsciiString(AsciiBytes(s).value) == s
  {
  }
}
