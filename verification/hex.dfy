/**
  The tag serial: each byte of an NFC tag id formatted with `"%02X"` and the
  pieces joined with no separator. Kotlin's `Byte` is signed; `%X` renders a
  negative byte as its unsigned value (the value plus 256).
 */
module Hex {
  import opened Optional
  import opened KText

  /** Kotlin's `Byte`. */
  newtype Int8 = x: int | -128 <= x < 128

  /** The upper-case digit for a value below 16: `0`-`9` then `A`-`F`. */
  function HexChar(n: nat): (c: char)
    requires n < 16
    ensures IsUpperHexDigit(c)
  {
    if n < 10 then ('0' as int + n) as char else ('A' as int + n - 10) as char
  }

  /** The unsigned reading of a signed byte, as `%X` prints it. */
  function Unsigned(b: Int8): (u: nat)
    ensures u < 256
    ensures (u - b as int) % 256 == 0
  {
    if b < 0 then b as int + 256 else b as int
  }

  /** The byte whose unsigned reading is `u`. */
  function Signed(u: nat): (b: Int8)
    requires u < 256
    ensures Unsigned(b) == u
  {
    if u < 128 then u as Int8 else (u - 256) as Int8
  }

  predicate IsUpperHexDigit(c: char) {
    '0' <= c <= '9' || 'A' <= c <= 'F'
  }

  /** The value of a hex digit of either case. */
  function DigitValue(c: char): (v: Option<nat>)
    ensures v.Some? ==> v.value < 16
    ensures IsUpperHexDigit(c) ==> v.Some? && HexChar(v.value) == c
  {
    if '0' <= c <= '9' then Some(c as int - '0' as int)
    else if 'A' <= c <= 'F' then Some(c as int - 'A' as int + 10)
    else if 'a' <= c <= 'f' then Some(c as int - 'a' as int + 10)
    else None
  }

  /** `"%02X".format(b)`. */
  function ByteHex(b: Int8): (h: string)
    ensures |h| == 2
    ensures IsUpperHexDigit(h[0]) && IsUpperHexDigit(h[1])
    ensures DigitValue(h[0]).Some? && DigitValue(h[1]).Some?
    ensures DigitValue(h[0]).value * 16 + DigitValue(h[1]).value == Unsigned(b)
  {
    var u := Unsigned(b);
    var h := [HexChar(u / 16), HexChar(u % 16)];
    assert DigitValue(h[0]) == Some(u / 16);
    assert DigitValue(h[1]) == Some(u % 16);
    h
  }

  /** `id.joinToString(separator = "") { "%02X".format(it) }`. */
  function Serial(id: seq<Int8>): (s: string)
    ensures |s| == 2 * |id|
    ensures forall i :: 0 <= i < |s| ==> IsUpperHexDigit(s[i])
    ensures forall k :: 0 <= k < |id| ==> s[2 * k..2 * k + 2] == ByteHex(id[k])
  {
    if |id| == 0 then ""
    else
      var rest := Serial(id[1..]);
      var s := ByteHex(id[0]) + rest;
      assert forall k :: 1 <= k < |id| ==> s[2 * k..2 * k + 2] == rest[2 * (k - 1)..2 * (k - 1) + 2];
      s
  }

  /** Reads a hex string back into bytes: two digits of either case per byte. */
  function ParseSerial(s: string): (r: Option<seq<Int8>>)
    ensures r.Some? ==> 2 * |r.value| == |s|
  {
    if |s| == 0 then Some([])
    else if |s| == 1 then None
    else
      match (DigitValue(s[0]), DigitValue(s[1]), ParseSerial(s[2..]))
      case (Some(hi), Some(lo), Some(rest)) => Some([Signed(hi * 16 + lo)] + rest)
      case _ => None
  }

  /** Reading the serial back recovers the tag id exactly. */
  lemma {:induction false} ParseSerialOfSerial(id: seq<Int8>)
    ensures ParseSerial(Serial(id)) == Some(id)
  {
    if |id| > 0 {
      var s := Serial(id);
      ParseSerialOfSerial(id[1..]);
      assert s[2..] == Serial(id[1..]);
      assert s[..2] == ByteHex(id[0]);
      var hi := DigitValue(s[0]).value;
      var lo := DigitValue(s[1]).value;
      assert Unsigned(Signed(hi * 16 + lo)) == Unsigned(id[0]);
      assert [id[0]] + id[1..] == id;
    }
  }

  /** A hex digit of either case. */
  predicate IsHexDigit(c: char) {
    DigitValue(c).Some?
  }

  /** Every hex string of even length, in either case, reads as bytes whose serial
      is the string upper-cased; for an upper-case string that is the string itself. */
  lemma {:induction false} SerialOfParseSerial(s: string)
    requires |s| % 2 == 0
    requires forall i :: 0 <= i < |s| ==> IsHexDigit(s[i])
    ensures ParseSerial(s).Some?
    ensures Serial(ParseSerial(s).value) == Upper(s)
  {
    if |s| > 0 {
      var t := s[2..];
      assert forall i :: 0 <= i < |t| ==> IsHexDigit(t[i]) by {
        forall i | 0 <= i < |t| ensures IsHexDigit(t[i]) {
          assert t[i] == s[i + 2];
        }
      }
      SerialOfParseSerial(t);
      SerialOfParseSerialStep(s);
    }
  }

  /** The round trip of a hex string follows from that of all but its first two digits. */
  lemma SerialOfParseSerialStep(s: string)
    requires |s| >= 2 && IsHexDigit(s[0]) && IsHexDigit(s[1])
    requires ParseSerial(s[2..]).Some?
    requires Serial(ParseSerial(s[2..]).value) == Upper(s[2..])
    ensures ParseSerial(s).Some?
    ensures Serial(ParseSerial(s).value) == Upper(s)
  {
    var rest := ParseSerial(s[2..]).value;
    var b := Signed(DigitValue(s[0]).value * 16 + DigitValue(s[1]).value);
    assert ParseSerial(s) == Some([b] + rest);
    assert ByteHex(b) == [UpperAscii(s[0]), UpperAscii(s[1])] by {
      ByteHexOfDigits(s[0], s[1]);
    }
    assert Serial([b] + rest) == ByteHex(b) + Serial(rest) by {
      assert ([b] + rest)[1..] == rest;
    }
    UpperDropTwo(s);
  }

  /** Formatting the byte two hex digits stand for gives back those digits, upper-cased. */
  lemma ByteHexOfDigits(c0: char, c1: char)
    requires IsHexDigit(c0) && IsHexDigit(c1)
    ensures ByteHex(Signed(DigitValue(c0).value * 16 + DigitValue(c1).value)) == [UpperAscii(c0), UpperAscii(c1)]
  {
    var h := ByteHex(Signed(DigitValue(c0).value * 16 + DigitValue(c1).value));
    var u0, u1 := UpperAscii(c0), UpperAscii(c1);
    assert DigitValue(u0) == DigitValue(c0) && DigitValue(u1) == DigitValue(c1);
    DigitsDetermine(h[0], h[1], u0, u1);
  }

  /** Two pairs of upper-case hex digits with the same value are the same characters. */
  lemma DigitsDetermine(a0: char, a1: char, b0: char, b1: char)
    requires IsUpperHexDigit(a0) && IsUpperHexDigit(a1) && IsUpperHexDigit(b0) && IsUpperHexDigit(b1)
    requires DigitValue(a0).value * 16 + DigitValue(a1).value == DigitValue(b0).value * 16 + DigitValue(b1).value
    ensures a0 == b0 && a1 == b1
  {
    var x0, x1 := DigitValue(a0).value, DigitValue(a1).value;
    var y0, y1 := DigitValue(b0).value, DigitValue(b1).value;
    assert x0 == y0 && x1 == y1;
  }

  /** Different tag ids never share a serial. */
  lemma SerialInjective(a: seq<Int8>, b: seq<Int8>)
    requires Serial(a) == Serial(b)
    ensures a == b
  {
    ParseSerialOfSerial(a);
    ParseSerialOfSerial(b);
  }

  /** A serial is blank exactly when the id has no bytes. */
  lemma SerialBlankIffEmpty(id: seq<Int8>)
    ensures IsBlank(Serial(id)) <==> |id| == 0
  {
    if |id| > 0 {
      assert IsUpperHexDigit(Serial(id)[0]);
    }
  }
}
