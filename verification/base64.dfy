/**
  The credential encoding used for the Authorization header:
  `Base64.getEncoder().encodeToString(text.toByteArray())`, i.e. the UTF-8
  bytes of the text in the padded base64 alphabet of section 4 of RFC 4648.
 */
module Base64 {
  import opened Optional

  type Byte = x: int | 0 <= x < 256

  /** The 64-character alphabet of section 4 of RFC 4648 (table 1). */
  function Char64(n: nat): (c: char)
    requires n < 64
    ensures Value64(c) == Some(n)
  {
    if n < 26 then ('A' as int + n) as char
    else if n < 52 then ('a' as int + n - 26) as char
    else if n < 62 then ('0' as int + n - 52) as char
    else if n == 62 then '+'
    else '/'
  }

  /** The value of an alphabet character; `None` for the pad `=` and everything else. */
  function Value64(c: char): (v: Option<nat>)
    ensures v.Some? ==> v.value < 64
  {
    if 'A' <= c <= 'Z' then Some(c as int - 'A' as int)
    else if 'a' <= c <= 'z' then Some(c as int - 'a' as int + 26)
    else if '0' <= c <= '9' then Some(c as int - '0' as int + 52)
    else if c == '+' then Some(62)
    else if c == '/' then Some(63)
    else None
  }

  predicate IsBase64Char(c: char) {
    Value64(c).Some? || c == '='
  }

  /** One group of four alphabet characters. */
  function Quad(c0: nat, c1: nat, c2: nat, c3: nat): (s: string)
    requires c0 < 64 && c1 < 64 && c2 < 64 && c3 < 64
    ensures |s| == 4
    ensures forall i :: 0 <= i < 4 ==> Value64(s[i]).Some?
  {
    [Char64(c0), Char64(c1), Char64(c2), Char64(c3)]
  }

  /** Encodes bytes three at a time into four characters, padding the last group with `=`. */
  function Encode(b: seq<Byte>): (s: string)
    ensures |s| == 4 * ((|b| + 2) / 3)
    ensures forall i :: 0 <= i < |s| ==> IsBase64Char(s[i])
  {
    if |b| == 0 then ""
    else if |b| == 1 then
      [Char64(b[0] / 4), Char64(b[0] % 4 * 16), '=', '=']
    else if |b| == 2 then
      [Char64(b[0] / 4), Char64(b[0] % 4 * 16 + b[1] / 16), Char64(b[1] % 16 * 4), '=']
    else
      var head := Quad(b[0] / 4, b[0] % 4 * 16 + b[1] / 16, b[1] % 16 * 4 + b[2] / 64, b[2] % 64);
      var tail := Encode(b[3..]);
      assert (|b| + 2) / 3 == (|b[3..]| + 2) / 3 + 1;
      head + tail
  }

  /** Decodes padded base64; `None` when the text is not a whole number of valid
      groups, or when a padded last group has bits set that no encoder writes
      (section 3.5 of RFC 4648: the pad bits are zero). */
  function Decode(s: string): (r: Option<seq<Byte>>)
  {
    if |s| == 0 then Some([])
    else if |s| < 4 then None
    else
      var v0, v1, v2, v3 := Value64(s[0]), Value64(s[1]), Value64(s[2]), Value64(s[3]);
      if v0.None? || v1.None? then None
      else if s[2] == '=' && s[3] == '=' then
        if |s| == 4 && v1.value % 16 == 0 then Some([v0.value * 4 + v1.value / 16]) else None
      else if v2.Some? && s[3] == '=' then
        if |s| == 4 && v2.value % 4 == 0 then Some([v0.value * 4 + v1.value / 16, v1.value % 16 * 16 + v2.value / 4]) else None
      else if v2.Some? && v3.Some? then
        var rest := Decode(s[4..]);
        if rest.None? then None
        else
          Some(Bytes3(v0.value, v1.value, v2.value, v3.value) + rest.value)
      else None
  }

  /** The three bytes carried by four six-bit values. */
  function Bytes3(c0: nat, c1: nat, c2: nat, c3: nat): seq<Byte>
    requires c0 < 64 && c1 < 64 && c2 < 64 && c3 < 64
  {
    [c0 * 4 + c1 / 16, c1 % 16 * 16 + c2 / 4, c2 % 4 * 64 + c3]
  }

  /** The three-byte group round trip, as arithmetic on the six-bit pieces. */
  lemma GroupRoundTrip(b0: Byte, b1: Byte, b2: Byte)
    ensures Bytes3(b0 / 4, b0 % 4 * 16 + b1 / 16, b1 % 16 * 4 + b2 / 64, b2 % 64) == [b0, b1, b2]
  {
  }

  /** Decoding what was encoded gives back the bytes. */
  lemma {:induction false} DecodeEncode(b: seq<Byte>)
    ensures Decode(Encode(b)) == Some(b)
  {
    if |b| >= 3 {
      DecodeEncode(b[3..]);
      DecodeEncodeStep(b);
    } else if |b| > 0 {
      DecodeEncodeShort(b);
    }
  }

  /** The round trip of a whole input follows from that of all but its first three bytes. */
  lemma DecodeEncodeStep(b: seq<Byte>)
    requires |b| >= 3
    requires Decode(Encode(b[3..])) == Some(b[3..])
    ensures Decode(Encode(b)) == Some(b)
  {
    Head3(b);
    DecodeEncodeGroup(b[0], b[1], b[2], b[3..]);
  }

  /** A sequence of three or more elements is its first three followed by the rest. */
  lemma Head3<T>(b: seq<T>)
    requires |b| >= 3
    ensures b == [b[0], b[1], b[2]] + b[3..]
  {
  }

  /** The round trip of a final partial group of one or two bytes. */
  lemma DecodeEncodeShort(b: seq<Byte>)
    requires 1 <= |b| <= 2
    ensures Decode(Encode(b)) == Some(b)
  {
    if |b| == 1 {
      DecodeEncodeOne(b[0]);
      assert b == [b[0]];
    } else {
      DecodeEncodeTwo(b[0], b[1]);
      assert b == [b[0], b[1]];
    }
  }

  /** A full leading group of three bytes, given that the rest round-trips. */
  lemma DecodeEncodeGroup(b0: Byte, b1: Byte, b2: Byte, t: seq<Byte>)
    requires Decode(Encode(t)) == Some(t)
    ensures Decode(Encode([b0, b1, b2] + t)) == Some([b0, b1, b2] + t)
  {
    var c0, c1, c2, c3 := b0 / 4, b0 % 4 * 16 + b1 / 16, b1 % 16 * 4 + b2 / 64, b2 % 64;
    EncodeGroup(b0, b1, b2, t);
    DecodeQuad(c0, c1, c2, c3, Encode(t));
    GroupRoundTrip(b0, b1, b2);
  }

  /** A final single byte: two characters and two pads. */
  lemma DecodeEncodeOne(b0: Byte)
    ensures Decode(Encode([b0])) == Some([b0])
  {
    var s := Encode([b0]);
    assert Value64(s[0]) == Some(b0 / 4);
    assert Value64(s[1]) == Some(b0 % 4 * 16);
  }

  /** A final pair of bytes: three characters and one pad. */
  lemma DecodeEncodeTwo(b0: Byte, b1: Byte)
    ensures Decode(Encode([b0, b1])) == Some([b0, b1])
  {
    assert (b0 / 4) * 4 + (b0 % 4 * 16 + b1 / 16) / 16 == b0;
    assert (b0 % 4 * 16 + b1 / 16) % 16 * 16 + (b1 % 16 * 4) / 4 == b1;
    var s := Encode([b0, b1]);
    assert Value64(s[0]) == Some(b0 / 4);
    assert Value64(s[1]) == Some(b0 % 4 * 16 + b1 / 16);
    assert Value64(s[2]) == Some(b1 % 16 * 4);
  }

  /** How `Encode` treats a leading group of three bytes. */
  lemma EncodeGroup(b0: Byte, b1: Byte, b2: Byte, t: seq<Byte>)
    ensures Encode([b0, b1, b2] + t) == Quad(b0 / 4, b0 % 4 * 16 + b1 / 16, b1 % 16 * 4 + b2 / 64, b2 % 64) + Encode(t)
  {
    assert ([b0, b1, b2] + t)[3..] == t;
  }

  /** A full group of four alphabet characters decodes to three bytes ahead of the rest. */
  lemma DecodeQuad(c0: nat, c1: nat, c2: nat, c3: nat, tail: string)
    requires c0 < 64 && c1 < 64 && c2 < 64 && c3 < 64
    requires Decode(tail).Some?
    ensures Decode(Quad(c0, c1, c2, c3) + tail) == Some(Bytes3(c0, c1, c2, c3) + Decode(tail).value)
  {
    var s := Quad(c0, c1, c2, c3) + tail;
    assert s[4..] == tail;
    assert Value64(s[0]) == Some(c0) && Value64(s[1]) == Some(c1);
    assert Value64(s[2]) == Some(c2) && Value64(s[3]) == Some(c3);
  }

  /** Every text `Decode` accepts is the encoding of what it decodes to, so a
      token is fixed by its bytes: no other text decodes to them. */
  lemma {:induction false} EncodeDecode(s: string)
    ensures Decode(s).Some? ==> Encode(Decode(s).value) == s
    decreases |s|
  {
    if |s| >= 4 && Decode(s).Some? {
      if s[3] == '=' {
        EncodeDecodeLast(s);
      } else {
        EncodeDecode(s[4..]);
        EncodeDecodeGroup(s);
      }
    }
  }

  /** The character of a six-bit value is the character the value was read from. */
  lemma Char64Value(c: char)
    requires Value64(c).Some?
    ensures Char64(Value64(c).value) == c
  {
  }

  /** Re-encoding the bytes of four six-bit values gives back the values. */
  lemma SixBits(c0: nat, c1: nat, c2: nat, c3: nat)
    requires c0 < 64 && c1 < 64 && c2 < 64 && c3 < 64
    ensures var x := Bytes3(c0, c1, c2, c3);
      && x[0] / 4 == c0
      && x[0] % 4 * 16 + x[1] / 16 == c1
      && x[1] % 16 * 4 + x[2] / 64 == c2
      && x[2] % 64 == c3
  {
  }

  /** A padded last group re-encodes to itself. */
  lemma EncodeDecodeLast(s: string)
    requires |s| >= 4 && Decode(s).Some? && s[3] == '='
    ensures Encode(Decode(s).value) == s
  {
    if s[2] == '=' {
      EncodeDecodeOneByte(s);
    } else {
      EncodeDecodeTwoBytes(s);
    }
  }

  /** `xx==` decodes to one byte that encodes back to `xx==`. */
  lemma EncodeDecodeOneByte(s: string)
    requires |s| >= 4 && Decode(s).Some? && s[2] == '=' && s[3] == '='
    ensures Encode(Decode(s).value) == s
  {
    assert |s| == 4 && Value64(s[1]).value % 16 == 0;
    EncodeOneByteChars(s);
  }

  /** `xxx=` decodes to two bytes that encode back to `xxx=`. */
  lemma EncodeDecodeTwoBytes(s: string)
    requires |s| >= 4 && Decode(s).Some? && s[2] != '=' && s[3] == '='
    ensures Encode(Decode(s).value) == s
  {
    assert |s| == 4 && Value64(s[2]).Some? && Value64(s[2]).value % 4 == 0;
    EncodeTwoBytesChars(s);
  }

  /** Two alphabet characters with zero pad bits and `==` encode the byte they carry. */
  lemma EncodeOneByteChars(s: string)
    requires |s| == 4 && s[2] == '=' && s[3] == '='
    requires Value64(s[0]).Some? && Value64(s[1]).Some? && Value64(s[1]).value % 16 == 0
    ensures Encode([Value64(s[0]).value * 4 + Value64(s[1]).value / 16]) == s
  {
    var c0, c1 := Value64(s[0]).value, Value64(s[1]).value;
    calc {
      Encode([c0 * 4 + c1 / 16]);
    ==  { EncodeOfOneByte(c0, c1); }
      [Char64(c0), Char64(c1), '=', '='];
    ==  { Char64Value(s[0]); Char64Value(s[1]); }
      [s[0], s[1], s[2], s[3]];
    ==  { FourElements(s); }
      s;
    }
  }

  /** Three alphabet characters with zero pad bits and `=` encode the two bytes they carry. */
  lemma EncodeTwoBytesChars(s: string)
    requires |s| == 4 && s[3] == '='
    requires Value64(s[0]).Some? && Value64(s[1]).Some? && Value64(s[2]).Some? && Value64(s[2]).value % 4 == 0
    ensures Encode([Value64(s[0]).value * 4 + Value64(s[1]).value / 16,
                    Value64(s[1]).value % 16 * 16 + Value64(s[2]).value / 4]) == s
  {
    var c0, c1, c2 := Value64(s[0]).value, Value64(s[1]).value, Value64(s[2]).value;
    calc {
      Encode([c0 * 4 + c1 / 16, c1 % 16 * 16 + c2 / 4]);
    ==  { EncodeOfTwoBytes(c0, c1, c2); }
      [Char64(c0), Char64(c1), Char64(c2), '='];
    ==  { Char64Value(s[0]); Char64Value(s[1]); Char64Value(s[2]); }
      [s[0], s[1], s[2], s[3]];
    ==  { FourElements(s); }
      s;
    }
  }

  /** A sequence of four elements is the display of its elements. */
  lemma FourElements<T>(s: seq<T>)
    requires |s| == 4
    ensures [s[0], s[1], s[2], s[3]] == s
  {
  }

  /** How `Encode` writes a single byte. */
  lemma EncodeOne(b0: Byte)
    ensures Encode([b0]) == [Char64(b0 / 4), Char64(b0 % 4 * 16), '=', '=']
  {
  }

  /** How `Encode` writes two bytes. */
  lemma EncodeTwo(b0: Byte, b1: Byte)
    ensures Encode([b0, b1]) == [Char64(b0 / 4), Char64(b0 % 4 * 16 + b1 / 16), Char64(b1 % 16 * 4), '=']
  {
  }

  /** The byte of `xx==` encodes back to its two values when the pad bits are zero. */
  lemma EncodeOfOneByte(c0: nat, c1: nat)
    requires c0 < 64 && c1 < 64 && c1 % 16 == 0
    ensures Encode([c0 * 4 + c1 / 16]) == [Char64(c0), Char64(c1), '=', '=']
  {
    EncodeOne(c0 * 4 + c1 / 16);
    OneByteBits(c0, c1);
  }

  /** The bytes of `xxx=` encode back to its three values when the pad bits are zero. */
  lemma EncodeOfTwoBytes(c0: nat, c1: nat, c2: nat)
    requires c0 < 64 && c1 < 64 && c2 < 64 && c2 % 4 == 0
    ensures Encode([c0 * 4 + c1 / 16, c1 % 16 * 16 + c2 / 4]) == [Char64(c0), Char64(c1), Char64(c2), '=']
  {
    EncodeTwo(c0 * 4 + c1 / 16, c1 % 16 * 16 + c2 / 4);
    TwoBytesBits(c0, c1, c2);
  }

  /** The byte of `xx==` splits back into the two six-bit values when the pad bits are zero. */
  lemma OneByteBits(c0: nat, c1: nat)
    requires c0 < 64 && c1 < 64 && c1 % 16 == 0
    ensures (c0 * 4 + c1 / 16) / 4 == c0
    ensures (c0 * 4 + c1 / 16) % 4 * 16 == c1
  {
  }

  /** The bytes of `xxx=` split back into the three six-bit values when the pad bits are zero. */
  lemma TwoBytesBits(c0: nat, c1: nat, c2: nat)
    requires c0 < 64 && c1 < 64 && c2 < 64 && c2 % 4 == 0
    ensures (c0 * 4 + c1 / 16) / 4 == c0
    ensures (c0 * 4 + c1 / 16) % 4 * 16 + (c1 % 16 * 16 + c2 / 4) / 16 == c1
    ensures (c1 % 16 * 16 + c2 / 4) % 16 * 4 == c2
  {
  }

  /** A full leading group re-encodes to itself when the rest does. */
  lemma EncodeDecodeGroup(s: string)
    requires |s| >= 4 && Decode(s).Some? && s[3] != '='
    requires Decode(s[4..]).Some? ==> Encode(Decode(s[4..]).value) == s[4..]
    ensures Encode(Decode(s).value) == s
  {
    DecodeGroupShape(s);
    EncodeGroupOfChars(s, Decode(s[4..]).value);
  }

  /** Four alphabet characters followed by the encoding of `rest` is the encoding
      of their three bytes followed by `rest`. */
  lemma EncodeGroupOfChars(s: string, rest: seq<Byte>)
    requires |s| >= 4
    requires Value64(s[0]).Some? && Value64(s[1]).Some? && Value64(s[2]).Some? && Value64(s[3]).Some?
    requires Encode(rest) == s[4..]
    ensures Encode(Bytes3(Value64(s[0]).value, Value64(s[1]).value, Value64(s[2]).value,
                          Value64(s[3]).value) + rest) == s
  {
    var c0, c1, c2, c3 := Value64(s[0]).value, Value64(s[1]).value, Value64(s[2]).value, Value64(s[3]).value;
    EncodeBytes3(c0, c1, c2, c3, rest);
    QuadOfChars(s);
    PrefixSuffix(s, 4);
  }

  /** A sequence is its prefix followed by the matching suffix. */
  lemma PrefixSuffix<T>(s: seq<T>, k: nat)
    requires k <= |s|
    ensures s[..k] + s[k..] == s
  {
  }

  /** Encoding the three bytes of four six-bit values writes those four values. */
  lemma EncodeBytes3(c0: nat, c1: nat, c2: nat, c3: nat, rest: seq<Byte>)
    requires c0 < 64 && c1 < 64 && c2 < 64 && c3 < 64
    ensures Encode(Bytes3(c0, c1, c2, c3) + rest) == Quad(c0, c1, c2, c3) + Encode(rest)
  {
    var x := Bytes3(c0, c1, c2, c3);
    SixBits(c0, c1, c2, c3);
    assert x == [x[0], x[1], x[2]];
    EncodeGroup(x[0], x[1], x[2], rest);
  }

  /** Four alphabet characters are the quad of their values. */
  lemma QuadOfChars(s: string)
    requires |s| >= 4
    requires Value64(s[0]).Some? && Value64(s[1]).Some? && Value64(s[2]).Some? && Value64(s[3]).Some?
    ensures Quad(Value64(s[0]).value, Value64(s[1]).value, Value64(s[2]).value, Value64(s[3]).value) == s[..4]
  {
    Char64Value(s[0]); Char64Value(s[1]); Char64Value(s[2]); Char64Value(s[3]);
  }

  /** What `Decode` accepting a text that starts with a full group says about it. */
  lemma DecodeGroupShape(s: string)
    requires |s| >= 4 && Decode(s).Some? && s[3] != '='
    ensures Value64(s[0]).Some? && Value64(s[1]).Some? && Value64(s[2]).Some? && Value64(s[3]).Some?
    ensures Decode(s[4..]).Some?
    ensures Decode(s) == Some(Bytes3(Value64(s[0]).value, Value64(s[1]).value, Value64(s[2]).value,
                                     Value64(s[3]).value) + Decode(s[4..]).value)
  {
  }

  /** The UTF-8 encoding of one Unicode scalar value (one to four bytes). */
  function Utf8Char(c: char): (r: seq<Byte>)
    ensures 1 <= |r| <= 4
    ensures (c as int < 0x80) <==> |r| == 1
    ensures c as int < 0x80 ==> r == [c as int]
  {
    var n := c as int;
    if n < 0x80 then [n]
    else if n < 0x800 then [0xC0 + n / 64, 0x80 + n % 64]
    else if n < 0x1_0000 then [0xE0 + n / 4096, 0x80 + n / 64 % 64, 0x80 + n % 64]
    else [0xF0 + n / 262144, 0x80 + n / 4096 % 64, 0x80 + n / 64 % 64, 0x80 + n % 64]
  }

  /** `String.toByteArray()`, whose default charset is UTF-8. */
  function Utf8(s: string): (r: seq<Byte>)
    ensures |s| <= |r| <= 4 * |s|
  {
    if |s| == 0 then [] else Utf8Char(s[0]) + Utf8(s[1..])
  }

  /** Encoding a concatenation concatenates the encodings. */
  lemma {:induction false} Utf8Append(a: string, b: string)
    ensures Utf8(a + b) == Utf8(a) + Utf8(b)
  {
    if |a| > 0 {
      Utf8Append(a[1..], b);
      assert (a + b)[0] == a[0];
      assert (a + b)[1..] == a[1..] + b;
      assert Utf8(a + b) == Utf8Char(a[0]) + Utf8(a[1..] + b);
    } else {
      assert a + b == b;
    }
  }

  /** Text made of ASCII characters encodes to one byte per character, the character's code. */
  lemma {:induction false} Utf8Ascii(s: string)
    requires forall i :: 0 <= i < |s| ==> s[i] as int < 0x80
    ensures |Utf8(s)| == |s|
    ensures forall i :: 0 <= i < |s| ==> Utf8(s)[i] == s[i] as int
  {
    if |s| > 0 {
      Utf8Ascii(s[1..]);
    }
  }
}
