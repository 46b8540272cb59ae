/**
 * Hexadecimal text to numbers: `hexToRgb`, which turns the colour picker's
 * "#RRGGBB" text into the three components of an LED command, and
 * `hexStringToUint8Array`, which turns the six-character board code into the
 * bytes of the Bluetooth scan filter.
 */
module HexCodec {
  import opened Arith
  import opened JsRuntime
  import opened TextFormat

  /** The object `hexToRgb` returns. */
  datatype Rgb = Rgb(r: int, g: int, b: int)

  predicate AllHexDigits(s: string) {
    AllRadixDigits(s, 16)
  }

  predicate IsByteRgb(c: Rgb) {
    0 <= c.r < 256 && 0 <= c.g < 256 && 0 <= c.b < 256
  }

  /** What `/^#?([a-f\d]{2})([a-f\d]{2})([a-f\d]{2})$/i` accepts: six
      hexadecimal digits in either case, with or without one leading '#',
      and nothing else. */
  predicate IsColorCode(hex: string) {
    || (|hex| == 7 && hex[0] == '#' && AllHexDigits(hex[1..]))
    || (|hex| == 6 && AllHexDigits(hex))
  }

  /** The part of the text after the optional '#'. */
  function ColorDigits(hex: string): string {
    if |hex| > 0 && hex[0] == '#' then hex[1..] else hex
  }

  /** `hexToRgb(hex)`: the three components, each the `parseInt(..., 16)` of
      its two-digit group, or `None` (the source's `null`) when the pattern
      does not match. */
  function HexToRgb(hex: string): (rgb: Option<Rgb>)
    ensures rgb.Some? <==> IsColorCode(hex)
    ensures rgb.Some? ==> IsByteRgb(rgb.value)
  {
    var digits := ColorDigits(hex);
    if |digits| == 6 && AllHexDigits(digits) then
      Some(Rgb(ParsedPair(digits[0..2]), ParsedPair(digits[2..4]), ParsedPair(digits[4..6])))
    else
      None
  }

  /** `parseInt(pair, 16)` of two hexadecimal digits, which is never NaN. */
  function ParsedPair(pair: string): (v: nat)
    requires |pair| == 2 && AllHexDigits(pair)
    ensures ParseIntHex(pair) == Some(v) && v < 256
  {
    ParseTwoHexDigits(pair);
    ParseIntHex(pair).value
  }

  /** The text a colour picker reports for a colour: '#' and two lower-case
      hexadecimal digits per component. */
  function ColorText(c: Rgb): (hex: string)
    requires IsByteRgb(c)
    ensures |hex| == 7
  {
    "#" + FixedDigits(c.r, 16, 2) + FixedDigits(c.g, 16, 2) + FixedDigits(c.b, 16, 2)
  }

  /** `hexToRgb` reads back every colour a colour picker can report. */
  lemma ColorRoundTrip(c: Rgb)
    requires IsByteRgb(c)
    ensures HexToRgb(ColorText(c)) == Some(c)
  {
    var hex := ColorText(c);
    var fr, fg, fb := FixedDigits(c.r, 16, 2), FixedDigits(c.g, 16, 2), FixedDigits(c.b, 16, 2);
    var d := ColorDigits(hex);
    FixedDigitsDigits(c.r, 16, 2);
    FixedDigitsDigits(c.g, 16, 2);
    FixedDigitsDigits(c.b, 16, 2);
    assert d == fr + fg + fb;
    assert d[0..2] == fr && d[2..4] == fg && d[4..6] == fb;
    assert AllHexDigits(d) by {
      forall i | 0 <= i < 6 ensures IsHexDigit(d[i]) {
        if i < 2 { assert d[i] == fr[i]; }
        else if i < 4 { assert d[i] == fg[i - 2]; }
        else { assert d[i] == fb[i - 4]; }
      }
    }
    assert hex[1..] == d;
    HexToRgbValue(hex);
    FixedByteValue(c.r);
    FixedByteValue(c.g);
    FixedByteValue(c.b);
  }

  /** The three components are the numbers the three digit pairs spell. */
  lemma HexToRgbValue(hex: string)
    requires IsColorCode(hex)
    ensures HexToRgb(hex) == Some(Rgb(DigitsValue(ColorDigits(hex)[0..2], 16),
                                      DigitsValue(ColorDigits(hex)[2..4], 16),
                                      DigitsValue(ColorDigits(hex)[4..6], 16)))
  {
    var d := ColorDigits(hex);
    assert |d| == 6 && AllHexDigits(d);
    ParsePairValue(d[0..2]);
    ParsePairValue(d[2..4]);
    ParsePairValue(d[4..6]);
  }

  lemma FixedByteValue(v: int)
    requires 0 <= v < 256
    ensures AllRadixDigits(FixedDigits(v, 16, 2), 16)
    ensures DigitsValue(FixedDigits(v, 16, 2), 16) == v
  {
    FixedDigitsValue(v, 16, 2);
    assert Pow(16, 2) == 256;
    DivOfSmaller(v, 256);
  }

  /** The pattern is case-insensitive: upper-casing the text changes nothing. */
  lemma HexToRgbIgnoresCase(hex: string)
    ensures HexToRgb(UpperCase(hex)) == HexToRgb(hex)
  {
    var u := UpperCase(hex);
    UpperCaseColorCode(hex);
    if IsColorCode(hex) {
      var d, du := ColorDigits(hex), ColorDigits(u);
      assert du == UpperCase(d);
      PairIgnoresCase(d, du, 0);
      PairIgnoresCase(d, du, 2);
      PairIgnoresCase(d, du, 4);
      HexToRgbValue(hex);
      HexToRgbValue(u);
    }
  }

  lemma PairIgnoresCase(d: string, du: string, k: nat)
    requires k + 2 <= |d| && du == UpperCase(d) && AllHexDigits(d)
    ensures AllHexDigits(du[k..k + 2]) && DigitsValue(du[k..k + 2], 16) == DigitsValue(d[k..k + 2], 16)
  {
    assert du[k..k + 2] == UpperCase(d[k..k + 2]);
    UpperCaseKeepsValue(d[k..k + 2], 16);
  }

  lemma UpperCaseColorCode(hex: string)
    ensures IsColorCode(UpperCase(hex)) <==> IsColorCode(hex)
  {
    var u := UpperCase(hex);
    assert forall i :: 0 <= i < |hex| ==> (IsHexDigit(u[i]) <==> IsHexDigit(hex[i]));
    assert |hex| > 0 ==> (u[0] == '#' <==> hex[0] == '#');
    if |hex| == 7 {
      assert AllHexDigits(u[1..]) <==> AllHexDigits(hex[1..]) by {
        assert forall i :: 0 <= i < 6 ==> u[1..][i] == u[i + 1] && hex[1..][i] == hex[i + 1];
      }
    }
  }

  /** Proof helper on digit arithmetic alone: the value of a two-digit text
      is sixteen times its first digit plus its second. Unlike
      `ParseTwoHexDigits`, it says nothing about `parseInt`. */
  lemma TwoDigitsValue(s: string)
    requires |s| == 2 && AllHexDigits(s)
    ensures DigitsValue(s, 16) == DigitValue(s[0]) * 16 + DigitValue(s[1])
  {
    assert s[..1][..0] == [];
    assert DigitsValue(s[..1], 16) == DigitValue(s[0]);
  }

  /** `parseInt` of two hexadecimal digits is the number they spell. */
  lemma ParsePairValue(f: string)
    requires |f| == 2 && AllHexDigits(f)
    ensures ParseIntHex(f) == Some(DigitsValue(f, 16))
  {
    ParseTwoHexDigits(f);
    TwoDigitsValue(f);
  }

  // ---------------------------------------------------------------------------
  // hexStringToUint8Array

  /** The byte the source stores for the two characters at `2k` and `2k+1`:
      their `parseInt(..., 16)`, through the `Uint8Array` conversion (NaN
      stores 0, a negative value wraps modulo 256). */
  function PairByteAsWritten(hexString: string, k: nat): byte
    requires 2 * k + 2 <= |hexString|
  {
    StoreUint8(ParseIntHex(hexString[2 * k..2 * k + 2]))
  }

  /** `hexStringToUint8Array(hexString)`: `None` stands for the exception
      thrown on an odd length. Each pair of characters is parsed and stored;
      the NaN test after the parse compares with NaN by `==`, which is false
      for every number, so no pair is ever rejected. */
  method HexStringToUint8Array(hexString: string) returns (result: Option<array<byte>>)
    ensures result.None? <==> |hexString| % 2 != 0
    ensures result.Some? ==> fresh(result.value)
    ensures result.Some? ==> result.value.Length == |hexString| / 2
    ensures result.Some? ==>
      forall k :: 0 <= k < result.value.Length ==> result.value[k] == PairByteAsWritten(hexString, k)
  {
    if |hexString| % 2 != 0 {
      return None;
    }
    var arrayBuffer := new byte[|hexString| / 2](_ => 0);
    var i := 0;
    while i < |hexString|
      invariant 0 <= i <= |hexString| && i % 2 == 0
      invariant forall k :: 0 <= k < i / 2 ==> arrayBuffer[k] == PairByteAsWritten(hexString, k)
    {
      var byteValue := ParseIntHex(hexString[i..i + 2]);
      arrayBuffer[i / 2] := StoreUint8(byteValue);
      i := i + 2;
    }
    return Some(arrayBuffer);
  }

  /** On text made of hexadecimal digits the source's pairs are the bytes the
      digits spell. */
  lemma PairByteAsWrittenOnHex(hexString: string, k: nat)
    requires |hexString| % 2 == 0 && AllHexDigits(hexString) && k < |hexString| / 2
    ensures PairByteAsWritten(hexString, k) == HexDecode(hexString)[k]
  {
    ParseTwoHexDigits(hexString[2 * k..2 * k + 2]);
  }

  /** The validation never fires: "zz" is two non-hexadecimal characters, yet
      it is converted, without an exception, to the single byte 0. */
  lemma InvalidHexAccepted()
    ensures |"zz"| % 2 == 0 && !AllHexDigits("zz")
    ensures ParseIntHex("zz").None?
    ensures PairByteAsWritten("zz", 0) == 0
  {
    assert !IsHexDigit('z');
    assert TrimStart("zz") == "zz";
    assert HexRunLength("zz") == 0;
  }

  // ---------------------------------------------------------------------------
  // The conversion the validation was meant to give

  /** The bytes spelled by an even-length text of hexadecimal digits, two
      digits per byte, high digit first. */
  function HexDecode(hexString: string): (bytes: seq<byte>)
    requires |hexString| % 2 == 0 && AllHexDigits(hexString)
    ensures |bytes| == |hexString| / 2
  {
    seq(|hexString| / 2, k requires 0 <= k < |hexString| / 2 => HexPair(hexString, k))
  }

  /** The byte spelled by the two digits at `2k` and `2k+1`, high digit first. */
  function HexPair(hexString: string, k: nat): byte
    requires 2 * k + 2 <= |hexString|
    requires IsHexDigit(hexString[2 * k]) && IsHexDigit(hexString[2 * k + 1])
  {
    ToUint8(DigitValue(hexString[2 * k]) * 16 + DigitValue(hexString[2 * k + 1]))
  }

  /** The two upper-case hexadecimal digits of a byte, high digit first;
      they spell the byte. */
  function ByteHex(b: byte): (s: string)
    ensures |s| == 2 && IsHexDigit(s[0]) && IsHexDigit(s[1])
    ensures DigitValue(s[0]) * 16 + DigitValue(s[1]) == b as int
  {
    var v := b as int;
    DivMod(v, 16);
    [UpperDigit(v / 16), UpperDigit(v % 16)]
  }

  function UpperDigit(d: nat): (c: char)
    requires d < 16
    ensures IsHexDigit(c) && IsUpperHexDigit(c) && DigitValue(c) == d
  {
    UpperChar(DigitChar(d))
  }

  /** `padHex` of a byte is its two digits. */
  lemma PadHexOfByte(b: byte)
    ensures PadHex(b as nat) == ByteHex(b)
  {
    var v := b as nat;
    PadHexDigits(v);
    FixedDigitsLast(v, 16, 1);
    FixedDigitsLast(v / 16, 16, 0);
    DivOfSmaller(v / 16, 16);
    var h, t := PadHex(v), ByteHex(b);
    assert h[0] == t[0] && h[1] == t[1];
  }

  /** Hexadecimal text of a byte sequence, two `padHex` digits per byte. */
  function HexEncode(bytes: seq<byte>): (hexString: string)
    ensures |hexString| == 2 * |bytes|
  {
    if |bytes| == 0 then "" else ByteHex(bytes[0]) + HexEncode(bytes[1..])
  }

  /** `hexStringToUint8Array` as its NaN test intends: `None` for an odd
      length or for any character that is not a hexadecimal digit. (Testing
      the parse result for NaN alone would still let "1z" through as 1, since
      `parseInt` stops at the first non-digit, so each character is checked.) */
  method HexStringToBytes(hexString: string) returns (result: Option<array<byte>>)
    ensures result.Some? <==> |hexString| % 2 == 0 && AllHexDigits(hexString)
    ensures result.Some? ==> result.value[..] == HexDecode(hexString)
    ensures result.Some? ==> fresh(result.value)
  {
    if |hexString| % 2 != 0 {
      return None;
    }
    var arrayBuffer := new byte[|hexString| / 2](_ => 0);
    var i := 0;
    while i < |hexString|
      invariant 0 <= i <= |hexString| && i % 2 == 0
      invariant forall j :: 0 <= j < i ==> IsHexDigit(hexString[j])
      invariant forall k :: 0 <= k < i / 2 ==> arrayBuffer[k] == HexPair(hexString, k)
    {
      if !IsHexDigit(hexString[i]) || !IsHexDigit(hexString[i + 1]) {
        return None;
      }
      arrayBuffer[i / 2] := HexPair(hexString, i / 2);
      i := i + 2;
    }
    assert AllHexDigits(hexString);
    assert arrayBuffer[..] == HexDecode(hexString);
    return Some(arrayBuffer);
  }

  /** Decoding undoes encoding: the hexadecimal text of any byte sequence
      decodes to that sequence. */
  lemma HexRoundTrip(bytes: seq<byte>)
    ensures |HexEncode(bytes)| % 2 == 0 && AllHexDigits(HexEncode(bytes))
    ensures HexDecode(HexEncode(bytes)) == bytes
  {
    var h := HexEncode(bytes);
    assert |h| / 2 == |bytes|;
    forall i | 0 <= i < |h| ensures IsHexDigit(h[i]) {
      EncodingDigit(bytes, i);
    }
    forall k | 0 <= k < |bytes| ensures HexDecode(h)[k] == bytes[k] {
      HexEncodeAt(bytes, k);
      DecodedPair(h, k, bytes[k]);
    }
  }

  lemma EncodingDigit(bytes: seq<byte>, i: nat)
    requires i < 2 * |bytes|
    ensures IsHexDigit(HexEncode(bytes)[i])
  {
    var k := i / 2;
    assert i == 2 * k || i == 2 * k + 1;
    HexEncodeAt(bytes, k);
  }

  /** Byte `k` of the decoding is the byte its two digits spell. */
  lemma DecodedPair(h: string, k: nat, b: byte)
    requires |h| % 2 == 0 && AllHexDigits(h) && k < |h| / 2
    requires DigitValue(h[2 * k]) * 16 + DigitValue(h[2 * k + 1]) == b as int
    ensures HexDecode(h)[k] == b
  {
    DivOfSmaller(b as int, 256);
  }

  /** The characters at `2k` and `2k+1` of the encoding are the digits of
      byte `k`. */
  lemma {:induction false} HexEncodeAt(bytes: seq<byte>, k: nat)
    requires k < |bytes|
    ensures HexEncode(bytes)[2 * k] == ByteHex(bytes[k])[0]
    ensures HexEncode(bytes)[2 * k + 1] == ByteHex(bytes[k])[1]
    decreases k
  {
    if k > 0 {
      var rest := bytes[1..];
      HexEncodeAt(rest, k - 1);
      assert rest[k - 1] == bytes[k];
      HexEncodeShift(bytes, 2 * k);
      HexEncodeShift(bytes, 2 * k + 1);
    } else {
      assert HexEncode(bytes) == ByteHex(bytes[0]) + HexEncode(bytes[1..]);
    }
  }

  /** Past the first byte's two digits, the text is the rest's text. */
  lemma HexEncodeShift(bytes: seq<byte>, i: nat)
    requires 2 <= i < 2 * |bytes|
    ensures HexEncode(bytes)[i] == HexEncode(bytes[1..])[i - 2]
  {
    var head, rest := ByteHex(bytes[0]), HexEncode(bytes[1..]);
    assert HexEncode(bytes) == head + rest;
  }
}
