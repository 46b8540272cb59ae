/**
 * The two fixed-width renderings the protocol code uses: `padHex` (two
 * upper-case hexadecimal digits, used for every byte it prints and for the
 * product-id and checksum latches) and `padDec` (four decimal digits, used
 * for the notification sequence number).
 */
module TextFormat {
  import opened Arith
  import opened JsRuntime

  /** `padHex(value)`: append the upper-cased hexadecimal text of `value` to
      "00" and keep the last two characters. */
  function PadHex(value: nat): (text: string)
    ensures |text| == 2
  {
    SliceLast("00" + UpperCase(ToRadixString(value, 16)), 2)
  }

  /** `padDec(value)`: append the decimal text of `value` to "0000" and keep
      the last four characters. */
  function PadDec(value: nat): (text: string)
    ensures |text| == 4
  {
    SliceLast("0000" + UpperCase(ToRadixString(value, 10)), 4)
  }

  predicate IsUpperHexDigit(c: char) {
    '0' <= c <= '9' || 'A' <= c <= 'F'
  }

  predicate IsDecimalDigit(c: char) {
    '0' <= c <= '9'
  }

  // ---------------------------------------------------------------------------
  // Reference definitions

  function Pow(radix: nat, width: nat): (p: nat)
    ensures radix > 0 ==> p > 0
  {
    if width == 0 then 1 else Pow(radix, width - 1) * radix
  }

  function Zeros(width: nat): (z: string)
    ensures |z| == width
    ensures forall i :: 0 <= i < width ==> z[i] == '0'
  {
    seq(width, _ => '0')
  }

  /** The `width` least significant digits of `n`, most significant first,
      zero-padded on the left (lower-case letters). */
  function FixedDigits(n: nat, radix: nat, width: nat): (s: string)
    requires 2 <= radix <= 36
    ensures |s| == width
  {
    if width == 0 then "" else FixedDigits(n / radix, radix, width - 1) + [DigitChar(n % radix)]
  }

  /** Every character of the rendering is a lower-case digit of the radix. */
  lemma {:induction false} FixedDigitsDigits(n: nat, radix: nat, width: nat)
    requires 2 <= radix <= 36
    ensures AllRadixDigits(FixedDigits(n, radix, width), radix)
    ensures forall i :: 0 <= i < width ==> !('A' <= FixedDigits(n, radix, width)[i] <= 'Z')
    decreases width
  {
    if width > 0 {
      FixedDigitsDigits(n / radix, radix, width - 1);
      FixedDigitsLast(n, radix, width - 1);
    }
  }

  // ---------------------------------------------------------------------------
  // The two renderings are fixed-width digit strings of the value

  /** `padHex(value)` is exactly two upper-case hexadecimal digits, and they
      spell `value` modulo 256; for a byte, the byte itself. */
  lemma PadHexDigits(value: nat)
    ensures PadHex(value) == UpperCase(FixedDigits(value, 16, 2))
    ensures |PadHex(value)| == 2
    ensures IsUpperHexDigit(PadHex(value)[0]) && IsUpperHexDigit(PadHex(value)[1])
    ensures AllRadixDigits(PadHex(value), 16)
    ensures DigitsValue(PadHex(value), 16) == value % 256
  {
    var t := ToRadixString(value, 16);
    assert "00" + UpperCase(t) == UpperCase(Zeros(2) + t);
    SliceLastUpperCase(Zeros(2) + t, 2);
    PaddedTail(value, 16, 2);
    var f := FixedDigits(value, 16, 2);
    FixedDigitsValue(value, 16, 2);
    UpperCaseKeepsValue(f, 16);
    assert Pow(16, 2) == 256;
  }

  /** `padDec(value)` is exactly four decimal digits spelling the last four
      decimal digits of `value`. */
  lemma PadDecDigits(value: nat)
    ensures PadDec(value) == FixedDigits(value, 10, 4)
    ensures |PadDec(value)| == 4
    ensures forall i :: 0 <= i < 4 ==> IsDecimalDigit(PadDec(value)[i])
    ensures AllRadixDigits(PadDec(value), 10)
    ensures DigitsValue(PadDec(value), 10) == value % 10000
  {
    var t := ToRadixString(value, 10);
    assert "0000" + UpperCase(t) == UpperCase(Zeros(4) + t);
    SliceLastUpperCase(Zeros(4) + t, 4);
    PaddedTail(value, 10, 4);
    var f := FixedDigits(value, 10, 4);
    FixedDigitsDigits(value, 10, 4);
    UpperCaseOfDecimal(f);
    FixedDigitsValue(value, 10, 4);
    assert Pow(10, 4) == 10000;
  }

  /** The tail kept by `slice(-width)` after left-padding with `width` zeros
      is the `width`-digit rendering of `n`. */
  lemma {:induction false} PaddedTail(n: nat, radix: nat, width: nat)
    requires 2 <= radix <= 36
    ensures SliceLast(Zeros(width) + ToRadixString(n, radix), width) == FixedDigits(n, radix, width)
    decreases width
  {
    if width > 0 {
      if n < radix {
        PaddedTailOneDigit(n, radix, width);
      } else {
        PaddedTail(n / radix, radix, width - 1);
        PaddedTailStep(n, radix, width);
      }
    }
  }

  lemma PaddedTailStep(n: nat, radix: nat, width: nat)
    requires 2 <= radix <= 36 && n >= radix && width > 0
    requires SliceLast(Zeros(width - 1) + ToRadixString(n / radix, radix), width - 1)
      == FixedDigits(n / radix, radix, width - 1)
    ensures SliceLast(Zeros(width) + ToRadixString(n, radix), width) == FixedDigits(n, radix, width)
  {
    var w := width - 1;
    var t, d := ToRadixString(n / radix, radix), DigitChar(n % radix);
    assert ToRadixString(n, radix) == t + [d];
    PadStep(t, d, w);
    FixedDigitsLast(n, radix, w);
  }

  lemma PaddedTailOneDigit(n: nat, radix: nat, width: nat)
    requires 2 <= radix <= 36 && n < radix && width > 0
    ensures SliceLast(Zeros(width) + ToRadixString(n, radix), width) == FixedDigits(n, radix, width)
  {
    var w := width - 1;
    DivOfSmaller(n, radix);
    var d := DigitChar(n);
    assert ToRadixString(n, radix) == "" + [d];
    PadStep("", d, w);
    assert Zeros(w) + "" == Zeros(w);
    FixedDigitsOfZero(radix, w);
    FixedDigitsLast(n, radix, w);
  }

  lemma FixedDigitsLast(n: nat, radix: nat, w: nat)
    requires 2 <= radix <= 36
    ensures FixedDigits(n, radix, w + 1) == FixedDigits(n / radix, radix, w) + [DigitChar(n % radix)]
  {
  }

  /** Padding with one more zero than the tail keeps does not change the tail. */
  lemma PadStep(p: string, d: char, w: nat)
    ensures SliceLast(Zeros(w + 1) + (p + [d]), w + 1) == SliceLast(Zeros(w) + p, w) + [d]
  {
    assert Zeros(w + 1) + (p + [d]) == (Zeros(w + 1) + p) + [d];
    SliceLastSnoc(Zeros(w + 1) + p, d, w);
    assert Zeros(w + 1) + p == ['0'] + (Zeros(w) + p);
    SliceLastCons('0', Zeros(w) + p, w);
  }

  lemma {:induction false} FixedDigitsOfZero(radix: nat, width: nat)
    requires 2 <= radix <= 36
    ensures FixedDigits(0, radix, width) == Zeros(width)
    decreases width
  {
    if width > 0 {
      FixedDigitsOfZero(radix, width - 1);
      assert DigitChar(0) == '0';
    }
  }

  /** The fixed-width rendering keeps exactly the value modulo `radix^width`. */
  lemma {:induction false} FixedDigitsValue(n: nat, radix: nat, width: nat)
    requires 2 <= radix <= 36
    ensures AllRadixDigits(FixedDigits(n, radix, width), radix)
    ensures DigitsValue(FixedDigits(n, radix, width), radix) == n % Pow(radix, width)
    decreases width
  {
    FixedDigitsDigits(n, radix, width);
    if width > 0 {
      FixedDigitsValue(n / radix, radix, width - 1);
      FixedDigitsValueStep(n, n / radix, radix, width);
    } else {
      assert Pow(radix, width) == 1;
    }
  }

  lemma FixedDigitsValueStep(n: nat, q: nat, radix: nat, width: nat)
    requires 2 <= radix <= 36 && width > 0 && q == n / radix
    requires AllRadixDigits(FixedDigits(n, radix, width), radix)
    requires AllRadixDigits(FixedDigits(q, radix, width - 1), radix)
    requires DigitsValue(FixedDigits(q, radix, width - 1), radix) == q % Pow(radix, width - 1)
    ensures DigitsValue(FixedDigits(n, radix, width), radix) == n % Pow(radix, width)
  {
    var s := FixedDigits(n, radix, width);
    var pre := FixedDigits(q, radix, width - 1);
    FixedDigitsLast(n, radix, width - 1);
    assert s[..|s| - 1] == pre;
    var p, v := Pow(radix, width - 1), DigitsValue(pre, radix);
    assert DigitsValue(s, radix) == v * radix + n % radix;
    ModStep(n, radix, p);
    assert Pow(radix, width) == p * radix;
    assert DigitsValue(s, radix) == n % (p * radix);
  }

  // ---------------------------------------------------------------------------
  // Sequence helpers

  lemma SliceLastSnoc(s: string, c: char, k: nat)
    requires |s| >= k
    ensures SliceLast(s + [c], k + 1) == SliceLast(s, k) + [c]
  {
    assert (s + [c])[|s| - k..] == s[|s| - k..] + [c];
  }

  lemma SliceLastCons(c: char, s: string, k: nat)
    requires |s| >= k
    ensures SliceLast([c] + s, k) == SliceLast(s, k)
  {
    assert ([c] + s)[|s| + 1 - k..] == s[|s| - k..];
  }

  lemma SliceLastUpperCase(s: string, k: nat)
    ensures SliceLast(UpperCase(s), k) == UpperCase(SliceLast(s, k))
  {
  }

  lemma {:induction false} UpperCaseKeepsValue(s: string, radix: nat)
    requires AllRadixDigits(s, radix)
    ensures AllRadixDigits(UpperCase(s), radix)
    ensures DigitsValue(UpperCase(s), radix) == DigitsValue(s, radix)
    decreases |s|
  {
    var u := UpperCase(s);
    if s != [] {
      assert UpperCase(s)[..|s| - 1] == UpperCase(s[..|s| - 1]);
      UpperCaseKeepsValue(s[..|s| - 1], radix);
    }
  }

  lemma UpperCaseOfDecimal(s: string)
    requires AllRadixDigits(s, 10)
    ensures UpperCase(s) == s
  {
  }
}
