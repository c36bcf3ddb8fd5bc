/**
  Base64 with the standard alphabet and `=` padding, as defined in section 4
  of RFC 4648. This is what `Convert.ToBase64String` produces for the service
  message values written by the logger. The decoder is the partner definition
  against which the encoder is proved: it accepts exactly the canonical
  encodings.
 */
module Base64 {
  import opened Wrappers

  type byte = x: int | 0 <= x < 256

  /** A 6-bit group: the index of one character of the alphabet. */
  type Sextet = x: int | 0 <= x < 64

  /** The alphabet of section 4 of RFC 4648 (Table 1), as a map from index to character. */
  function CharOf(i: Sextet): char
  {
    if i < 26 then ('A' as int + i) as char
    else if i < 52 then ('a' as int + i - 26) as char
    else if i < 62 then ('0' as int + i - 52) as char
    else if i == 62 then '+'
    else '/'
  }

  predicate IsAlphabetChar(c: char)
  {
    'A' <= c <= 'Z' || 'a' <= c <= 'z' || '0' <= c <= '9' || c == '+' || c == '/'
  }

  /** The pad character; it is not part of the alphabet. */
  const Pad: char := '='

  /** The inverse of CharOf on the alphabet. */
  function IndexOf(c: char): (i: Sextet)
    requires IsAlphabetChar(c)
    ensures CharOf(i) == c
  {
    if 'A' <= c <= 'Z' then c as int - 'A' as int
    else if 'a' <= c <= 'z' then c as int - 'a' as int + 26
    else if '0' <= c <= '9' then c as int - '0' as int + 52
    else if c == '+' then 62
    else 63
  }

  lemma IndexOfCharOf(i: Sextet)
    ensures IsAlphabetChar(CharOf(i))
    ensures IndexOf(CharOf(i)) == i
  {
  }

  /** Number of `=` characters that end the encoding of `n` bytes. */
  function PadCount(n: nat): nat
  {
    (3 - n % 3) % 3
  }

  /** The four characters that encode one complete group of three bytes. */
  function EncodeGroup(b0: byte, b1: byte, b2: byte): (r: string)
    ensures |r| == 4
    ensures forall k | 0 <= k < 4 :: IsAlphabetChar(r[k])
  {
    IndexOfCharOf(b0 / 4);
    IndexOfCharOf((b0 % 4) * 16 + b1 / 16);
    IndexOfCharOf((b1 % 16) * 4 + b2 / 64);
    IndexOfCharOf(b2 % 64);
    [CharOf(b0 / 4), CharOf((b0 % 4) * 16 + b1 / 16),
     CharOf((b1 % 16) * 4 + b2 / 64), CharOf(b2 % 64)]
  }

  /** The four characters that encode a final group of one byte: two characters and two `=`. */
  function EncodeOne(b0: byte): (r: string)
    ensures |r| == 4 && IsAlphabetChar(r[0]) && IsAlphabetChar(r[1]) && r[2] == Pad && r[3] == Pad
  {
    IndexOfCharOf(b0 / 4);
    IndexOfCharOf((b0 % 4) * 16);
    [CharOf(b0 / 4), CharOf((b0 % 4) * 16), Pad, Pad]
  }

  /** The four characters that encode a final group of two bytes: three characters and one `=`. */
  function EncodeTwo(b0: byte, b1: byte): (r: string)
    ensures |r| == 4 && IsAlphabetChar(r[0]) && IsAlphabetChar(r[1]) && IsAlphabetChar(r[2]) && r[3] == Pad
  {
    IndexOfCharOf(b0 / 4);
    IndexOfCharOf((b0 % 4) * 16 + b1 / 16);
    IndexOfCharOf((b1 % 16) * 4);
    [CharOf(b0 / 4), CharOf((b0 % 4) * 16 + b1 / 16), CharOf((b1 % 16) * 4), Pad]
  }

  /** A full group in front of the encoding of `n` bytes has the shape of the encoding of `n + 3` bytes. */
  lemma GroupThenRest(g: string, rest: string, n: nat)
    requires |g| == 4 && forall k | 0 <= k < 4 :: IsAlphabetChar(g[k])
    requires |rest| == 4 * ((n + 2) / 3)
    requires forall k | 0 <= k < |rest| - PadCount(n) :: IsAlphabetChar(rest[k])
    requires forall k | |rest| - PadCount(n) <= k < |rest| :: rest[k] == Pad
    ensures |g + rest| == 4 * ((n + 3 + 2) / 3)
    ensures forall k | 0 <= k < |g + rest| - PadCount(n + 3) :: IsAlphabetChar((g + rest)[k])
    ensures forall k | |g + rest| - PadCount(n + 3) <= k < |g + rest| :: (g + rest)[k] == Pad
  {
    assert PadCount(n + 3) == PadCount(n);
    assert forall k | 4 <= k < |g + rest| :: (g + rest)[k] == rest[k - 4];
  }

  /** Encodes a byte sequence; a final group of one or two bytes is padded with `=`. */
  function Encode(s: seq<byte>): (r: string)
    ensures |r| == 4 * ((|s| + 2) / 3)
    ensures forall k | 0 <= k < |r| - PadCount(|s|) :: IsAlphabetChar(r[k])
    ensures forall k | |r| - PadCount(|s|) <= k < |r| :: r[k] == Pad
    decreases |s|
  {
    if |s| == 0 then ""
    else if |s| == 1 then EncodeOne(s[0])
    else if |s| == 2 then EncodeTwo(s[0], s[1])
    else
      var g, rest := EncodeGroup(s[0], s[1], s[2]), Encode(s[3..]);
      GroupThenRest(g, rest, |s| - 3);
      g + rest
  }

  /** An encoding holds nothing but alphabet characters and padding. */
  lemma EncodeAvoids(s: seq<byte>, c: char)
    requires c != Pad && !IsAlphabetChar(c)
    ensures c !in Encode(s)
  {
    var r := Encode(s);
    forall k | 0 <= k < |r|
      ensures r[k] != c
    {
      if k < |r| - PadCount(|s|) {
        assert IsAlphabetChar(r[k]);
      }
    }
  }

  /** Decodes four alphabet characters into three bytes. */
  function DecodeGroup(c0: char, c1: char, c2: char, c3: char): Option<seq<byte>>
  {
    if IsAlphabetChar(c0) && IsAlphabetChar(c1) && IsAlphabetChar(c2) && IsAlphabetChar(c3) then
      var i0: int, i1: int, i2: int, i3: int := IndexOf(c0), IndexOf(c1), IndexOf(c2), IndexOf(c3);
      Some([i0 * 4 + i1 / 16, (i1 % 16) * 16 + i2 / 4, (i2 % 4) * 64 + i3])
    else None
  }

  /**
    Decodes the last group, which may carry one or two `=`. The bits that the
    padding leaves unused must be zero, so only canonical encodings decode.
   */
  function DecodeLastGroup(c0: char, c1: char, c2: char, c3: char): Option<seq<byte>>
  {
    if c3 != Pad then DecodeGroup(c0, c1, c2, c3)
    else if !IsAlphabetChar(c0) || !IsAlphabetChar(c1) then None
    else if c2 == Pad then
      var i0: int, i1: int := IndexOf(c0), IndexOf(c1);
      if i1 % 16 != 0 then None else Some([i0 * 4 + i1 / 16])
    else if !IsAlphabetChar(c2) then None
    else
      var i0: int, i1: int, i2: int := IndexOf(c0), IndexOf(c1), IndexOf(c2);
      if i2 % 4 != 0 then None else Some([i0 * 4 + i1 / 16, (i1 % 16) * 16 + i2 / 4])
  }

  /** Decodes a Base64 string; `None` when it is not a canonical encoding. */
  function Decode(r: string): Option<seq<byte>>
    decreases |r|
  {
    if |r| == 0 then Some([])
    else if |r| < 4 then None
    else if |r| == 4 then DecodeLastGroup(r[0], r[1], r[2], r[3])
    else
      match DecodeGroup(r[0], r[1], r[2], r[3])
      case None => None
      case Some(g) =>
        match Decode(r[4..])
        case None => None
        case Some(rest) => Some(g + rest)
  }

  /** The sextet arithmetic of a full group, away from the string reasoning. */
  lemma GroupArithmetic(b0: byte, b1: byte, b2: byte)
    ensures 0 <= (b0 % 4) * 16 + b1 / 16 < 64 && 0 <= (b1 % 16) * 4 + b2 / 64 < 64
    ensures (b0 / 4) * 4 + ((b0 % 4) * 16 + b1 / 16) / 16 == b0
    ensures (((b0 % 4) * 16 + b1 / 16) % 16) * 16 + ((b1 % 16) * 4 + b2 / 64) / 4 == b1
    ensures (((b1 % 16) * 4 + b2 / 64) % 4) * 64 + b2 % 64 == b2
  {
  }

  /** Decoding four alphabet characters, stated on their indices. */
  lemma DecodeFullGroup(i0: Sextet, i1: Sextet, i2: Sextet, i3: Sextet)
    ensures DecodeGroup(CharOf(i0), CharOf(i1), CharOf(i2), CharOf(i3))
            == Some([i0 * 4 + i1 / 16, (i1 % 16) * 16 + i2 / 4, (i2 % 4) * 64 + i3])
  {
    IndexOfCharOf(i0);
    IndexOfCharOf(i1);
    IndexOfCharOf(i2);
    IndexOfCharOf(i3);
  }

  lemma GroupRoundTrip(b0: byte, b1: byte, b2: byte)
    ensures DecodeGroup(EncodeGroup(b0, b1, b2)[0], EncodeGroup(b0, b1, b2)[1],
                        EncodeGroup(b0, b1, b2)[2], EncodeGroup(b0, b1, b2)[3]) == Some([b0, b1, b2])
  {
    var i0: Sextet, i1: Sextet := b0 / 4, (b0 % 4) * 16 + b1 / 16;
    var i2: Sextet, i3: Sextet := (b1 % 16) * 4 + b2 / 64, b2 % 64;
    assert [i0 * 4 + i1 / 16, (i1 % 16) * 16 + i2 / 4, (i2 % 4) * 64 + i3] == [b0, b1, b2] by {
      GroupArithmetic(b0, b1, b2);
    }
    DecodeFullGroup(i0, i1, i2, i3);
    assert EncodeGroup(b0, b1, b2) == [CharOf(i0), CharOf(i1), CharOf(i2), CharOf(i3)];
  }

  /** The sextet arithmetic of a one-byte group. */
  lemma OneByteArithmetic(b0: byte)
    ensures 0 <= (b0 % 4) * 16 < 64 && ((b0 % 4) * 16) % 16 == 0
    ensures (b0 / 4) * 4 + ((b0 % 4) * 16) / 16 == b0
  {
  }

  /** Decoding a final group of two characters and two `=` whose unused bits are zero. */
  lemma DecodeOneGroup(i0: Sextet, i1: Sextet)
    requires i1 % 16 == 0
    ensures DecodeLastGroup(CharOf(i0), CharOf(i1), Pad, Pad) == Some([i0 * 4 + i1 / 16])
  {
    IndexOfCharOf(i0);
    IndexOfCharOf(i1);
  }

  lemma EncodeOneRoundTrip(b0: byte)
    ensures DecodeLastGroup(EncodeOne(b0)[0], EncodeOne(b0)[1], EncodeOne(b0)[2], EncodeOne(b0)[3]) == Some([b0])
  {
    var i0: Sextet, i1: Sextet := b0 / 4, (b0 % 4) * 16;
    assert i1 % 16 == 0 && [i0 * 4 + i1 / 16] == [b0] by {
      OneByteArithmetic(b0);
    }
    DecodeOneGroup(i0, i1);
    assert EncodeOne(b0) == [CharOf(i0), CharOf(i1), Pad, Pad];
  }

  lemma OneByteRoundTrip(s: seq<byte>)
    requires |s| == 1
    ensures Decode(Encode(s)) == Some(s)
  {
    var r := EncodeOne(s[0]);
    assert Encode(s) == r;
    EncodeOneRoundTrip(s[0]);
    assert Decode(r) == DecodeLastGroup(r[0], r[1], r[2], r[3]);
    assert s == [s[0]];
  }

  /** The sextet arithmetic of a two-byte group. */
  lemma TwoBytesArithmetic(b0: byte, b1: byte)
    ensures 0 <= (b0 % 4) * 16 + b1 / 16 < 64 && 0 <= (b1 % 16) * 4 < 64
    ensures (b0 / 4) * 4 + ((b0 % 4) * 16 + b1 / 16) / 16 == b0
    ensures (((b0 % 4) * 16 + b1 / 16) % 16) * 16 + ((b1 % 16) * 4) / 4 == b1
    ensures ((b1 % 16) * 4) % 4 == 0
  {
  }

  /** Decoding a final group of three characters and one `=` whose unused bits are zero. */
  lemma DecodeTwoGroup(i0: Sextet, i1: Sextet, i2: Sextet)
    requires i2 % 4 == 0
    ensures DecodeLastGroup(CharOf(i0), CharOf(i1), CharOf(i2), Pad)
            == Some([i0 * 4 + i1 / 16, (i1 % 16) * 16 + i2 / 4])
  {
    IndexOfCharOf(i0);
    IndexOfCharOf(i1);
    IndexOfCharOf(i2);
  }

  lemma EncodeTwoRoundTrip(b0: byte, b1: byte)
    ensures DecodeLastGroup(EncodeTwo(b0, b1)[0], EncodeTwo(b0, b1)[1], EncodeTwo(b0, b1)[2], EncodeTwo(b0, b1)[3])
            == Some([b0, b1])
  {
    var i0: Sextet, i1: Sextet, i2: Sextet := b0 / 4, (b0 % 4) * 16 + b1 / 16, (b1 % 16) * 4;
    assert i2 % 4 == 0 && [i0 * 4 + i1 / 16, (i1 % 16) * 16 + i2 / 4] == [b0, b1] by {
      TwoBytesArithmetic(b0, b1);
    }
    DecodeTwoGroup(i0, i1, i2);
    assert EncodeTwo(b0, b1) == [CharOf(i0), CharOf(i1), CharOf(i2), Pad];
  }

  lemma TwoBytesRoundTrip(s: seq<byte>)
    requires |s| == 2
    ensures Decode(Encode(s)) == Some(s)
  {
    var r := EncodeTwo(s[0], s[1]);
    assert Encode(s) == r;
    EncodeTwoRoundTrip(s[0], s[1]);
    assert Decode(r) == DecodeLastGroup(r[0], r[1], r[2], r[3]);
    assert s == [s[0], s[1]];
  }

  lemma EncodeUnfold(s: seq<byte>)
    requires |s| >= 3
    ensures Encode(s) == EncodeGroup(s[0], s[1], s[2]) + Encode(s[3..])
  {
  }

  /** A last group without padding decodes as a full group. */
  lemma DecodeSingleGroup(g: string, head: seq<byte>)
    requires |g| == 4 && g[3] != Pad
    requires DecodeGroup(g[0], g[1], g[2], g[3]) == Some(head)
    ensures Decode(g) == Some(head)
  {
  }

  /** A full group in front of a decodable string decodes to the group's bytes in front. */
  lemma DecodeConsGroup(g: string, tail: string, head: seq<byte>, rest: seq<byte>)
    requires |g| == 4 && |tail| > 0
    requires DecodeGroup(g[0], g[1], g[2], g[3]) == Some(head)
    requires Decode(tail) == Some(rest)
    ensures Decode(g + tail) == Some(head + rest)
  {
    var r := g + tail;
    assert r[4..] == tail;
    assert r[0] == g[0] && r[1] == g[1] && r[2] == g[2] && r[3] == g[3];
  }

  /** Decoding an encoding gives back the original bytes. */
  lemma {:induction false} DecodeEncode(s: seq<byte>)
    ensures Decode(Encode(s)) == Some(s)
    decreases |s|
  {
    if |s| == 0 {
    } else if |s| == 1 {
      OneByteRoundTrip(s);
    } else if |s| == 2 {
      TwoBytesRoundTrip(s);
    } else {
      var g := EncodeGroup(s[0], s[1], s[2]);
      var head := [s[0], s[1], s[2]];
      EncodeUnfold(s);
      GroupRoundTrip(s[0], s[1], s[2]);
      assert s == head + s[3..];
      if |s| == 3 {
        assert s == head && Encode(s) == g;
        assert g[3] != Pad;
        DecodeSingleGroup(g, head);
      } else {
        DecodeEncode(s[3..]);
        DecodeConsGroup(g, Encode(s[3..]), head, s[3..]);
      }
    }
  }

  /** The arithmetic of re-encoding a decoded full group. */
  lemma GroupInverseArithmetic(i0: Sextet, i1: Sextet, i2: Sextet, i3: Sextet)
    ensures 0 <= i0 * 4 + i1 / 16 < 256 && 0 <= (i1 % 16) * 16 + i2 / 4 < 256 && 0 <= (i2 % 4) * 64 + i3 < 256
    ensures (i0 * 4 + i1 / 16) / 4 == i0
    ensures ((i0 * 4 + i1 / 16) % 4) * 16 + ((i1 % 16) * 16 + i2 / 4) / 16 == i1
    ensures (((i1 % 16) * 16 + i2 / 4) % 16) * 4 + ((i2 % 4) * 64 + i3) / 64 == i2
    ensures ((i2 % 4) * 64 + i3) % 64 == i3
  {
  }

  /** Re-encoding the bytes of four decoded sextets gives back their characters. */
  lemma EncodeDecodedGroup(i0: Sextet, i1: Sextet, i2: Sextet, i3: Sextet, b0: byte, b1: byte, b2: byte)
    requires b0 == i0 * 4 + i1 / 16 && b1 == (i1 % 16) * 16 + i2 / 4 && b2 == (i2 % 4) * 64 + i3
    ensures EncodeGroup(b0, b1, b2) == [CharOf(i0), CharOf(i1), CharOf(i2), CharOf(i3)]
  {
    assert b0 / 4 == i0 && (b0 % 4) * 16 + b1 / 16 == i1 && (b1 % 16) * 4 + b2 / 64 == i2 && b2 % 64 == i3 by {
      GroupInverseArithmetic(i0, i1, i2, i3);
    }
  }

  lemma GroupInverse(c0: char, c1: char, c2: char, c3: char, g: seq<byte>)
    requires DecodeGroup(c0, c1, c2, c3) == Some(g)
    ensures |g| == 3
    ensures EncodeGroup(g[0], g[1], g[2]) == [c0, c1, c2, c3]
  {
    var i0: Sextet, i1: Sextet, i2: Sextet, i3: Sextet := IndexOf(c0), IndexOf(c1), IndexOf(c2), IndexOf(c3);
    assert g == [i0 * 4 + i1 / 16, (i1 % 16) * 16 + i2 / 4, (i2 % 4) * 64 + i3];
    EncodeDecodedGroup(i0, i1, i2, i3, g[0], g[1], g[2]);
  }

  /** The arithmetic of re-encoding a decoded one-byte group. */
  lemma OneByteInverse(i0: Sextet, i1: Sextet)
    requires i1 % 16 == 0
    ensures 0 <= i0 * 4 + i1 / 16 < 256
    ensures (i0 * 4 + i1 / 16) / 4 == i0 && ((i0 * 4 + i1 / 16) % 4) * 16 == i1
  {
  }

  /** The arithmetic of re-encoding a decoded two-byte group. */
  lemma TwoBytesInverse(i0: Sextet, i1: Sextet, i2: Sextet)
    requires i2 % 4 == 0
    ensures 0 <= i0 * 4 + i1 / 16 < 256 && 0 <= (i1 % 16) * 16 + i2 / 4 < 256
    ensures (i0 * 4 + i1 / 16) / 4 == i0
    ensures ((i0 * 4 + i1 / 16) % 4) * 16 + ((i1 % 16) * 16 + i2 / 4) / 16 == i1
    ensures (((i1 % 16) * 16 + i2 / 4) % 16) * 4 == i2
  {
  }

  lemma FullLastGroupInverse(c0: char, c1: char, c2: char, c3: char, s: seq<byte>)
    requires DecodeGroup(c0, c1, c2, c3) == Some(s)
    ensures Encode(s) == [c0, c1, c2, c3]
  {
    GroupInverse(c0, c1, c2, c3, s);
    assert s[3..] == [];
    EncodeUnfold(s);
  }

  lemma OneByteLastGroupInverse(c0: char, c1: char, s: seq<byte>)
    requires DecodeLastGroup(c0, c1, Pad, Pad) == Some(s)
    ensures Encode(s) == [c0, c1, Pad, Pad]
  {
    var i0: Sextet, i1: Sextet := IndexOf(c0), IndexOf(c1);
    assert s == [i0 * 4 + i1 / 16] && i1 % 16 == 0;
    assert s[0] / 4 == i0 && (s[0] % 4) * 16 == i1 by {
      OneByteInverse(i0, i1);
    }
    assert Encode(s) == EncodeOne(s[0]);
  }

  lemma TwoBytesLastGroupInverse(c0: char, c1: char, c2: char, s: seq<byte>)
    requires c2 != Pad
    requires DecodeLastGroup(c0, c1, c2, Pad) == Some(s)
    ensures Encode(s) == [c0, c1, c2, Pad]
  {
    var i0: Sextet, i1: Sextet, i2: Sextet := IndexOf(c0), IndexOf(c1), IndexOf(c2);
    assert s == [i0 * 4 + i1 / 16, (i1 % 16) * 16 + i2 / 4] && i2 % 4 == 0;
    assert s[0] / 4 == i0 && (s[0] % 4) * 16 + s[1] / 16 == i1 && (s[1] % 16) * 4 == i2 by {
      TwoBytesInverse(i0, i1, i2);
    }
    assert Encode(s) == EncodeTwo(s[0], s[1]);
  }

  lemma LastGroupInverse(c0: char, c1: char, c2: char, c3: char, s: seq<byte>)
    requires DecodeLastGroup(c0, c1, c2, c3) == Some(s)
    ensures Encode(s) == [c0, c1, c2, c3]
  {
    if c3 != Pad {
      FullLastGroupInverse(c0, c1, c2, c3, s);
    } else if c2 == Pad {
      OneByteLastGroupInverse(c0, c1, s);
    } else {
      TwoBytesLastGroupInverse(c0, c1, c2, s);
    }
  }

  lemma ConsGroupInverse(r: string, s: seq<byte>, g: seq<byte>, rest: seq<byte>)
    requires |r| > 4
    requires DecodeGroup(r[0], r[1], r[2], r[3]) == Some(g)
    requires s == g + rest
    requires Encode(rest) == r[4..]
    ensures Encode(s) == r
  {
    var c := r[..4];
    assert |g| == 3 && EncodeGroup(g[0], g[1], g[2]) == c by {
      GroupInverse(r[0], r[1], r[2], r[3], g);
      assert c == [r[0], r[1], r[2], r[3]];
    }
    assert |Encode(rest)| > 0;
    assert s[0] == g[0] && s[1] == g[1] && s[2] == g[2] && s[3..] == rest;
    EncodeUnfold(s);
    assert r == c + r[4..];
  }

  /** Every string that decodes is the encoding of what it decodes to. */
  lemma {:induction false} EncodeDecode(r: string, s: seq<byte>)
    requires Decode(r) == Some(s)
    ensures Encode(s) == r
    decreases |r|
  {
    if |r| == 0 {
    } else if |r| == 4 {
      LastGroupInverse(r[0], r[1], r[2], r[3], s);
      assert r == [r[0], r[1], r[2], r[3]];
    } else {
      assert |r| > 4;
      var g := DecodeGroup(r[0], r[1], r[2], r[3]).value;
      var rest := Decode(r[4..]).value;
      assert s == g + rest;
      EncodeDecode(r[4..], rest);
      ConsGroupInverse(r, s, g, rest);
    }
  }

  /** Distinct byte sequences have distinct encodings. */
  lemma EncodeInjective(s: seq<byte>, t: seq<byte>)
    requires Encode(s) == Encode(t)
    ensures s == t
  {
    DecodeEncode(s);
    DecodeEncode(t);
  }

  /** Test vectors from section 10 of RFC 4648 ("f", "fo", "foobar"). */
  lemma RfcTestVectors()
    ensures Encode([102]) == "Zg=="
    ensures Encode([102, 111]) == "Zm8="
    ensures Encode([102, 111, 111, 98, 97, 114]) == "Zm9vYmFy"
  {
  }
}
