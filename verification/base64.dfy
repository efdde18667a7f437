/** The base64 encoding of section 4 of RFC 4648 (the alphabet A-Z a-z 0-9 + /, with '=' padding),
    as produced by Python's `base64.b64encode(...).decode('utf-8')`, and a decoder that inverts it. */
module Base64 {
  import opened Wrappers

  type byte = x: int | 0 <= x < 256
  /** A 6-bit group: the index of one character of the alphabet. */
  type sextet = x: int | 0 <= x < 64

  const Pad: char := '='

  /** Table 1 of section 4 of RFC 4648. */
  function CharOf(i: sextet): (c: char)
    ensures IsAlphabetChar(c)
  {
    if i < 26 then ('A' as int + i) as char
    else if i < 52 then ('a' as int + (i - 26)) as char
    else if i < 62 then ('0' as int + (i - 52)) as char
    else if i == 62 then '+'
    else '/'
  }

  predicate IsAlphabetChar(c: char) {
    ('A' <= c <= 'Z') || ('a' <= c <= 'z') || ('0' <= c <= '9') || c == '+' || c == '/'
  }

  /** The inverse of Table 1. */
  function IndexOf(c: char): (i: sextet)
    requires IsAlphabetChar(c)
    ensures CharOf(i) == c
  {
    if 'A' <= c <= 'Z' then c as int - 'A' as int
    else if 'a' <= c <= 'z' then c as int - 'a' as int + 26
    else if '0' <= c <= '9' then c as int - '0' as int + 52
    else if c == '+' then 62
    else 63
  }

  lemma IndexOfCharOf(i: sextet)
    ensures IsAlphabetChar(CharOf(i)) && IndexOf(CharOf(i)) == i
  {
  }

  /** Three bytes (24 bits) become four characters, most significant bits first. */
  function EncodeGroup(b0: byte, b1: byte, b2: byte): string {
    [CharOf(b0 / 4), CharOf((b0 % 4) * 16 + b1 / 16), CharOf((b1 % 16) * 4 + b2 / 64), CharOf(b2 % 64)]
  }

  /** `base64.b64encode(data)`: whole groups of three bytes, then a final group of one byte
      (two characters and "==") or two bytes (three characters and "="). */
  function Encode(data: seq<byte>): (s: string)
    ensures forall k :: 0 <= k < |s| ==> IsAlphabetChar(s[k]) || s[k] == Pad
    decreases |data|
  {
    if |data| == 0 then []
    else if |data| == 1 then
      [CharOf(data[0] / 4), CharOf((data[0] % 4) * 16), Pad, Pad]
    else if |data| == 2 then
      [CharOf(data[0] / 4), CharOf((data[0] % 4) * 16 + data[1] / 16), CharOf((data[1] % 16) * 4), Pad]
    else
      EncodeGroup(data[0], data[1], data[2]) + Encode(data[3..])
  }

  /** Every started group of three bytes takes four characters. */
  lemma {:induction false} EncodeLength(data: seq<byte>)
    ensures |Encode(data)| == 4 * ((|data| + 2) / 3)
    decreases |data|
  {
    if |data| >= 3 {
      EncodeLength(data[3..]);
      assert |Encode(data)| == 4 + |Encode(data[3..])|;
      assert (|data| + 2) / 3 == (|data[3..]| + 2) / 3 + 1;
    }
  }

  /** Four sextets (24 bits) joined into three bytes, most significant bits first. */
  function Join3(i0: sextet, i1: sextet, i2: sextet, i3: sextet): seq<byte> {
    [i0 * 4 + i1 / 16, (i1 % 16) * 16 + i2 / 4, (i2 % 4) * 64 + i3]
  }

  /** Three sextets joined into two bytes; the last two bits of i2 are unused. */
  function Join2(i0: sextet, i1: sextet, i2: sextet): seq<byte> {
    [i0 * 4 + i1 / 16, (i1 % 16) * 16 + i2 / 4]
  }

  /** Two sextets joined into one byte; the last four bits of i1 are unused. */
  function Join1(i0: sextet, i1: sextet): seq<byte> {
    [i0 * 4 + i1 / 16]
  }

  /** Four alphabet characters back to three bytes. */
  function DecodeGroup(c0: char, c1: char, c2: char, c3: char): Option<seq<byte>> {
    if IsAlphabetChar(c0) && IsAlphabetChar(c1) && IsAlphabetChar(c2) && IsAlphabetChar(c3) then
      Some(Join3(IndexOf(c0), IndexOf(c1), IndexOf(c2), IndexOf(c3)))
    else None
  }

  /** The last group, which may carry one or two padding characters. The bits of the last
      character that no byte uses (the pad bits) must be zero, as section 3.5 of RFC 4648
      requires of an encoder, so each byte sequence has exactly one encoding. */
  function DecodeFinalGroup(c0: char, c1: char, c2: char, c3: char): Option<seq<byte>> {
    if c2 == Pad && c3 == Pad then
      if IsAlphabetChar(c0) && IsAlphabetChar(c1) && IndexOf(c1) % 16 == 0 then
        Some(Join1(IndexOf(c0), IndexOf(c1)))
      else None
    else if c3 == Pad then
      if IsAlphabetChar(c0) && IsAlphabetChar(c1) && IsAlphabetChar(c2) && IndexOf(c2) % 4 == 0 then
        Some(Join2(IndexOf(c0), IndexOf(c1), IndexOf(c2)))
      else None
    else DecodeGroup(c0, c1, c2, c3)
  }

  /** A decoder for the encoding above: None for a length that is not a multiple of four,
      a character outside the alphabet, padding anywhere but the end, or non-zero pad bits. */
  function Decode(s: string): Option<seq<byte>>
    decreases |s|
  {
    if |s| == 0 then Some([])
    else if |s| < 4 then None
    else if |s| == 4 then DecodeFinalGroup(s[0], s[1], s[2], s[3])
    else
      match DecodeGroup(s[0], s[1], s[2], s[3])
      case None => None
      case Some(group) =>
        match Decode(s[4..])
        case None => None
        case Some(rest) => Some(group + rest)
  }

  /** Splitting a byte into high and low bit fields and joining them again gives it back. */
  lemma JoinFields(hi: int, lo: int, d: int)
    requires d == 4 || d == 16 || d == 64
    requires 0 <= lo < d
    ensures (hi * d + lo) / d == hi && (hi * d + lo) % d == lo
  {
  }

  /** The arithmetic behind one group: each byte is rebuilt from the sextets that carry it. */
  lemma GroupFields(b0: byte, b1: byte, b2: byte)
    ensures (b0 / 4) * 4 + ((b0 % 4) * 16 + b1 / 16) / 16 == b0
    ensures (((b0 % 4) * 16 + b1 / 16) % 16) * 16 + ((b1 % 16) * 4 + b2 / 64) / 4 == b1
    ensures (((b1 % 16) * 4 + b2 / 64) % 4) * 64 + b2 % 64 == b2
  {
    JoinFields(b0 % 4, b1 / 16, 16);
    JoinFields(b1 % 16, b2 / 64, 4);
  }

  lemma DecodeEncodeGroup(b0: byte, b1: byte, b2: byte)
    ensures var g := EncodeGroup(b0, b1, b2);
            DecodeGroup(g[0], g[1], g[2], g[3]) == Some([b0, b1, b2])
  {
    var i0, i1, i2, i3 := b0 / 4, (b0 % 4) * 16 + b1 / 16, (b1 % 16) * 4 + b2 / 64, b2 % 64;
    IndexOfCharOf(i0);
    IndexOfCharOf(i1);
    IndexOfCharOf(i2);
    IndexOfCharOf(i3);
    GroupFields(b0, b1, b2);
  }

  lemma DecodeEncodeOne(b0: byte)
    ensures Decode(Encode([b0])) == Some([b0])
  {
    var i0, i1 := b0 / 4, (b0 % 4) * 16;
    IndexOfCharOf(i0);
    IndexOfCharOf(i1);
    assert Encode([b0]) == [CharOf(i0), CharOf(i1), Pad, Pad];
  }

  lemma DecodeEncodeTwo(b0: byte, b1: byte)
    ensures Decode(Encode([b0, b1])) == Some([b0, b1])
  {
    var i0, i1, i2 := b0 / 4, (b0 % 4) * 16 + b1 / 16, (b1 % 16) * 4;
    assert Encode([b0, b1]) == [CharOf(i0), CharOf(i1), CharOf(i2), Pad];
    DecodeTwoFields(i0, i1, i2);
    JoinFields(b0 % 4, b1 / 16, 16);
    JoinFields(b1 % 16, 0, 4);
  }

  /** Three alphabet characters and one '=' decode to the two bytes their sextets carry. */
  lemma DecodeTwoFields(i0: sextet, i1: sextet, i2: sextet)
    requires i2 % 4 == 0
    ensures Decode([CharOf(i0), CharOf(i1), CharOf(i2), Pad])
            == Some([i0 * 4 + i1 / 16, (i1 % 16) * 16 + i2 / 4])
  {
    IndexOfCharOf(i0);
    IndexOfCharOf(i1);
    IndexOfCharOf(i2);
  }

  /** A whole group in front of a decodable string decodes to its three bytes in front. */
  lemma DecodeGroupPrefix(b0: byte, b1: byte, b2: byte, rest: string, tail: seq<byte>)
    requires Decode(rest) == Some(tail)
    ensures Decode(EncodeGroup(b0, b1, b2) + rest) == Some([b0, b1, b2] + tail)
  {
    var g := EncodeGroup(b0, b1, b2);
    DecodeEncodeGroup(b0, b1, b2);
    if rest == [] {
      assert g + rest == g && tail == [];
      assert [b0, b1, b2] + tail == [b0, b1, b2];
      DecodeLastGroup(g, [b0, b1, b2]);
    } else {
      DecodeGroupThenRest(g, rest, [b0, b1, b2], tail);
    }
  }

  /** Four characters without a final '=' decode as a whole group. */
  lemma DecodeLastGroup(w: string, group: seq<byte>)
    requires |w| == 4 && w[3] != Pad && DecodeGroup(w[0], w[1], w[2], w[3]) == Some(group)
    ensures Decode(w) == Some(group)
  {
  }

  /** A whole group in front of a non-empty decodable string. */
  lemma DecodeGroupThenRest(w: string, rest: string, group: seq<byte>, tail: seq<byte>)
    requires |w| == 4 && DecodeGroup(w[0], w[1], w[2], w[3]) == Some(group)
    requires rest != [] && Decode(rest) == Some(tail)
    ensures Decode(w + rest) == Some(group + tail)
  {
    var t := w + rest;
    assert |rest| >= 4;
    assert t[0] == w[0] && t[1] == w[1] && t[2] == w[2] && t[3] == w[3];
    assert t[4..] == rest;
  }

  /** The same, for the first three bytes of data in front of the encoding of the others. */
  lemma DecodeFirstGroup(data: seq<byte>, rest: string)
    requires |data| >= 3 && Decode(rest) == Some(data[3..])
    ensures Decode(EncodeGroup(data[0], data[1], data[2]) + rest) == Some(data)
  {
    DecodeGroupPrefix(data[0], data[1], data[2], rest, data[3..]);
    assert [data[0], data[1], data[2]] + data[3..] == data;
  }

  /** Encoding loses nothing: the decoder gives back exactly the bytes that were encoded. */
  lemma {:induction false} DecodeEncode(data: seq<byte>)
    ensures Decode(Encode(data)) == Some(data)
    decreases |data|
  {
    if |data| == 1 {
      assert data == [data[0]];
      DecodeEncodeOne(data[0]);
    } else if |data| == 2 {
      assert data == [data[0], data[1]];
      DecodeEncodeTwo(data[0], data[1]);
    } else if |data| >= 3 {
      DecodeEncode(data[3..]);
      DecodeEncodeLonger(data);
    }
  }

  lemma EncodeFirstGroup(data: seq<byte>)
    requires |data| >= 3
    ensures Encode(data) == EncodeGroup(data[0], data[1], data[2]) + Encode(data[3..])
  {
  }

  /** The step of the induction: a first whole group in front of data that round-trips. */
  lemma DecodeEncodeLonger(data: seq<byte>)
    requires |data| >= 3 && Decode(Encode(data[3..])) == Some(data[3..])
    ensures Decode(Encode(data)) == Some(data)
  {
    EncodeFirstGroup(data);
    DecodeFirstGroup(data, Encode(data[3..]));
  }

  // ---------------------------------------------------------------------------
  // The converse: every string the decoder accepts is the encoding of its bytes, so the
  // encoding is canonical (zero pad bits, padding only to complete the last group).

  /** A sextet is its high part times d plus its low part. */
  lemma SplitSextet(i: sextet, d: int)
    requires d == 4 || d == 16
    ensures (i / d) * d + i % d == i
  {
  }

  /** The arithmetic behind a decoded group: re-splitting the three bytes joined from four
      sextets, as EncodeGroup does, gives the sextets back. */
  lemma FieldsOf3(i0: sextet, i1: sextet, i2: sextet, i3: sextet)
    ensures var g := Join3(i0, i1, i2, i3);
            && g[0] / 4 == i0 && (g[0] % 4) * 16 + g[1] / 16 == i1
            && (g[1] % 16) * 4 + g[2] / 64 == i2 && g[2] % 64 == i3
  {
    JoinFields(i0, i1 / 16, 4);
    JoinFields(i1 % 16, i2 / 4, 16);
    JoinFields(i2 % 4, i3, 64);
    SplitSextet(i1, 16);
    SplitSextet(i2, 4);
  }

  /** The same for two bytes joined from three sextets whose unused bits are zero. */
  lemma FieldsOf2(i0: sextet, i1: sextet, i2: sextet)
    requires i2 % 4 == 0
    ensures var g := Join2(i0, i1, i2);
            g[0] / 4 == i0 && (g[0] % 4) * 16 + g[1] / 16 == i1 && (g[1] % 16) * 4 == i2
  {
    JoinFields(i0, i1 / 16, 4);
    JoinFields(i1 % 16, i2 / 4, 16);
    SplitSextet(i1, 16);
    SplitSextet(i2, 4);
  }

  /** The same for one byte joined from two sextets whose unused bits are zero. */
  lemma FieldsOf1(i0: sextet, i1: sextet)
    requires i1 % 16 == 0
    ensures var g := Join1(i0, i1);
            g[0] / 4 == i0 && (g[0] % 4) * 16 == i1
  {
    JoinFields(i0, i1 / 16, 4);
    SplitSextet(i1, 16);
  }

  /** Four sextets, joined into three bytes, encode back to their own four characters. */
  lemma EncodeSextets(i0: sextet, i1: sextet, i2: sextet, i3: sextet)
    ensures var g := Join3(i0, i1, i2, i3);
            EncodeGroup(g[0], g[1], g[2]) == [CharOf(i0), CharOf(i1), CharOf(i2), CharOf(i3)]
  {
    FieldsOf3(i0, i1, i2, i3);
  }

  /** Three sextets whose last two bits are zero, joined into two bytes, encode back to
      their own three characters and one '='. */
  lemma EncodeTwoSextets(i0: sextet, i1: sextet, i2: sextet)
    requires i2 % 4 == 0
    ensures Encode(Join2(i0, i1, i2)) == [CharOf(i0), CharOf(i1), CharOf(i2), Pad]
  {
    FieldsOf2(i0, i1, i2);
  }

  /** Two sextets whose last four bits are zero, joined into one byte, encode back to their
      own two characters and "==". */
  lemma EncodeOneSextets(i0: sextet, i1: sextet)
    requires i1 % 16 == 0
    ensures Encode(Join1(i0, i1)) == [CharOf(i0), CharOf(i1), Pad, Pad]
  {
    FieldsOf1(i0, i1);
  }

  /** A whole group that decodes is the encoding of its three bytes. */
  lemma EncodeDecodeGroup(c0: char, c1: char, c2: char, c3: char)
    requires DecodeGroup(c0, c1, c2, c3).Some?
    ensures var g := DecodeGroup(c0, c1, c2, c3).value;
            EncodeGroup(g[0], g[1], g[2]) == [c0, c1, c2, c3]
  {
    EncodeSextets(IndexOf(c0), IndexOf(c1), IndexOf(c2), IndexOf(c3));
  }

  /** A final group with one '=' that decodes is the encoding of its two bytes. */
  lemma EncodeDecodeTwo(c0: char, c1: char, c2: char)
    requires c2 != Pad && DecodeFinalGroup(c0, c1, c2, Pad).Some?
    ensures Encode(DecodeFinalGroup(c0, c1, c2, Pad).value) == [c0, c1, c2, Pad]
  {
    EncodeTwoSextets(IndexOf(c0), IndexOf(c1), IndexOf(c2));
  }

  /** A final group with "==" that decodes is the encoding of its one byte. */
  lemma EncodeDecodeOne(c0: char, c1: char)
    requires DecodeFinalGroup(c0, c1, Pad, Pad).Some?
    ensures Encode(DecodeFinalGroup(c0, c1, Pad, Pad).value) == [c0, c1, Pad, Pad]
  {
    EncodeOneSextets(IndexOf(c0), IndexOf(c1));
  }

  /** The last four characters: whichever of the three forms they take, they are the
      encoding of what they decode to. */
  lemma EncodeDecodeFinal(s: string)
    requires |s| == 4 && DecodeFinalGroup(s[0], s[1], s[2], s[3]).Some?
    ensures Encode(DecodeFinalGroup(s[0], s[1], s[2], s[3]).value) == s
  {
    if s[2] == Pad && s[3] == Pad {
      EncodeDecodeOne(s[0], s[1]);
    } else if s[3] == Pad {
      EncodeDecodeTwo(s[0], s[1], s[2]);
    } else {
      var g := DecodeGroup(s[0], s[1], s[2], s[3]).value;
      EncodeDecodeGroup(s[0], s[1], s[2], s[3]);
      assert g[3..] == [];
      EncodeFirstGroup(g);
    }
  }

  /** "QQ==" is the encoding of the byte 65; "QR==" carries the same byte with a non-zero pad
      bit and is rejected. */
  lemma NonZeroPadBitsRejected()
    ensures Decode("QQ==") == Some([65]) && Encode([65]) == "QQ=="
    ensures Decode("QR==") == None
  {
    assert IndexOf('Q') == 16 && IndexOf('R') == 17;
  }

  /** The step of the induction: a whole group in front of a string that is the encoding of
      its bytes. */
  lemma EncodeDecodeLonger(s: string, group: seq<byte>, rest: seq<byte>)
    requires |s| > 4 && DecodeGroup(s[0], s[1], s[2], s[3]) == Some(group)
    requires Encode(rest) == s[4..]
    ensures Encode(group + rest) == s
  {
    EncodeDecodeGroup(s[0], s[1], s[2], s[3]);
    assert |group| == 3;
    var data := group + rest;
    assert data[0] == group[0] && data[1] == group[1] && data[2] == group[2];
    assert data[3..] == rest;
    EncodeFirstGroup(data);
    SplitFour(s);
  }

  /** A string of four or more characters is its first four followed by the rest. */
  lemma SplitFour(s: string)
    requires |s| >= 4
    ensures s == [s[0], s[1], s[2], s[3]] + s[4..]
  {
    assert s[..4] == [s[0], s[1], s[2], s[3]];
    assert s == s[..4] + s[4..];
  }

  /** Decoding is exact: a string the decoder accepts is precisely the encoding of the bytes
      it yields. With DecodeEncode, Encode and Decode are inverse bijections between byte
      sequences and canonical base64 strings, so an encoder that wrote non-zero pad bits or
      padded differently would not satisfy DecodeEncode. */
  lemma {:induction false} EncodeDecode(s: string)
    requires Decode(s).Some?
    ensures Encode(Decode(s).value) == s
    decreases |s|
  {
    if |s| == 4 {
      EncodeDecodeFinal(s);
    } else if |s| > 4 {
      var group := DecodeGroup(s[0], s[1], s[2], s[3]).value;
      EncodeDecode(s[4..]);
      EncodeDecodeLonger(s, group, Decode(s[4..]).value);
    }
  }
}
